/** The list of loaded messages with its index map, album table and attached view
    (src/chat/messagesmodel.cpp, with the row overrides of readablemessagesmodel.cpp
    and invertedmediamessagesmodel.h/.cpp; `flavour` tells which override a virtual call reaches). */
module MessagesModels {
  import opened IdLists
  import opened Lists
  import opened Rows
  import opened Albums
  import opened Sequences
  import opened Deletion
  import opened Arranging

  class MessagesModel {
    const flavour: Flavour
    var chatId: int
    var messages: seq<Message>
    var messageIndexMap: map<int, int>
    var albumMessageMap: map<int, seq<int>>
    /** What a view that follows the row notifications shows. */
    var shown: seq<RowFlags>

    ghost predicate Valid()
      reads this
    {
      && Indexed(messages, messageIndexMap)
      && |shown| == |messages|
      && (forall a :: a in albumMessageMap ==> Distinct(albumMessageMap[a]))
    }

    /** Table and marks agree with the loaded rows. */
    ghost predicate AlbumsOk()
      reads this
    {
      AlbumsExact(messages, albumMessageMap)
    }

    /** The chat has no albums and the view shows what recomputing every row would give. */
    ghost predicate ViewOk()
      requires Valid()
      reads this
    {
      NoAlbums(messages) && shown == AllFlags(flavour, messages, messageIndexMap)
    }

    constructor (flavour: Flavour, chatId: int)
      ensures Valid() && AlbumsOk() && ViewOk()
      ensures messages == [] && this.flavour == flavour && this.chatId == chatId
    {
      this.flavour := flavour;
      this.chatId := chatId;
      messages := [];
      messageIndexMap := map[];
      albumMessageMap := map[];
      shown := [];
    }

    method Clear() returns (cleared: bool)
      requires Valid()
      modifies this
      ensures Valid() && messages == [] && chatId == old(chatId)
      ensures cleared == (old(messages) != [])
      ensures cleared ==> albumMessageMap == map[]
      ensures old(AlbumsOk()) ==> AlbumsOk()
      ensures ViewOk()
    {
      cleared := messages != [];
      if cleared {
        messages := [];
        messageIndexMap := map[];
        albumMessageMap := map[];
        shown := [];
      }
    }

    // Row insertion: the base class keeps list and index, the overrides add the change notices

    method BaseInsertMessagesAt(insertIndex: nat, newMessages: seq<Message>)
      requires Valid() && insertIndex <= |messages| && newMessages != []
      requires Distinct(Ids(messages + newMessages))
      modifies this
      ensures Valid() && messages == old(messages)[..insertIndex] + newMessages + old(messages)[insertIndex..]
      ensures var now := AllFlags(flavour, messages, messageIndexMap);
              shown == ShowInserted(now, old(shown), insertIndex, |newMessages|)
      ensures chatId == old(chatId) && albumMessageMap == old(albumMessageMap)
    {
      ghost var before := messages;
      var insertCount := |newMessages|;
      var totalCount := |messages| + insertCount;
      for i := 0 to insertCount
        invariant messages == before[..insertIndex] + newMessages[..i] + before[insertIndex..]
        invariant IndexedBelow(messages, messageIndexMap, insertIndex + i)
        invariant shown == old(shown) && chatId == old(chatId) && albumMessageMap == old(albumMessageMap)
      {
        var message := newMessages[i];
        InsertNext(before, newMessages, insertIndex, i, messageIndexMap);
        messages := messages[..insertIndex + i] + [message] + messages[insertIndex + i..];
        messageIndexMap := messageIndexMap[message.id := insertIndex + i];
      }
      assert newMessages[..insertCount] == newMessages;
      RebuildIndex(insertIndex + insertCount);
      RowsInserted(insertIndex, insertCount);
    }

    /** The loop that re-enters every row from `from` on. */
    method RebuildIndex(from: nat)
      requires from <= |messages| && IndexedBelow(messages, messageIndexMap, from)
      modifies this`messageIndexMap
      ensures Indexed(messages, messageIndexMap)
    {
      for i := from to |messages|
        invariant IndexedBelow(messages, messageIndexMap, i)
      {
        IndexPut(messages, messageIndexMap, i);
        messageIndexMap := messageIndexMap[messages[i].id := i];
      }
    }

    method RowsInserted(first: nat, count: nat)
      requires Indexed(messages, messageIndexMap) && first + count <= |messages| && first <= |shown|
      modifies this`shown
      ensures shown == ShowInserted(AllFlags(flavour, messages, messageIndexMap), old(shown), first, count)
    {
      shown := ShowInserted(AllFlags(flavour, messages, messageIndexMap), shown, first, count);
    }

    method DataChanged(row: int, role: Role)
      requires Valid()
      modifies this`shown
      ensures Valid() && shown == ShowChanged(AllFlags(flavour, messages, messageIndexMap), old(shown), row, role)
    {
      shown := ShowChanged(AllFlags(flavour, messages, messageIndexMap), shown, row, role);
    }

    method BaseAppendMessages(newMessages: seq<Message>)
      requires Valid() && newMessages != []
      requires Distinct(Ids(messages + newMessages))
      modifies this
      ensures Valid() && messages == old(messages) + newMessages
      ensures var now := AllFlags(flavour, messages, messageIndexMap);
              shown == ShowInserted(now, old(shown), |old(messages)|, |newMessages|)
      ensures chatId == old(chatId) && albumMessageMap == old(albumMessageMap)
    {
      var oldSize := |messages|;
      var count := |newMessages|;
      messages := messages + newMessages;
      assert messages[..oldSize] == old(messages);
      AppendIndices(oldSize);
      RowsInserted(oldSize, count);
    }

    method AppendIndices(oldSize: nat)
      requires oldSize <= |messages| && Distinct(Ids(messages))
      requires IndexedBelow(messages[..oldSize], messageIndexMap, oldSize)
      modifies this`messageIndexMap
      ensures Indexed(messages, messageIndexMap)
    {
      for i := oldSize to |messages|
        invariant IndexedBelow(messages[..i], messageIndexMap, i)
      {
        IndexNext(messages, messageIndexMap, i);
        messageIndexMap := messageIndexMap[messages[i].id := i];
      }
      assert messages[..|messages|] == messages;
    }

    method BasePrependMessages(newMessages: seq<Message>)
      requires Valid() && newMessages != []
      requires Distinct(Ids(messages + newMessages))
      modifies this
      ensures Valid() && messages == newMessages + old(messages)
      ensures shown == ShowInserted(AllFlags(flavour, messages, messageIndexMap), old(shown), 0, |newMessages|)
      ensures chatId == old(chatId) && albumMessageMap == old(albumMessageMap)
    {
      ghost var before := messages;
      var insertCount := |newMessages|;
      for i := 0 to insertCount
        invariant messages == newMessages[..i] + before
        invariant IndexedBelow(messages, messageIndexMap, i)
        invariant shown == old(shown) && chatId == old(chatId) && albumMessageMap == old(albumMessageMap)
      {
        var message := newMessages[i];
        PrependNext(before, newMessages, i, messageIndexMap);
        messages := messages[..i] + [message] + messages[i..];
        messageIndexMap := messageIndexMap[message.id := i];
      }
      assert newMessages[..insertCount] == newMessages;
      RebuildIndex(insertCount);
      RowsInserted(0, insertCount);
    }

    /** The override's notices: the row before `at` may end a sequence, the row `after` may start one. */
    method UpdateSequences(at: nat, after: nat)
      requires Valid()
      modifies this`shown
      ensures Valid()
      ensures shown == AfterNotices(flavour, AllFlags(flavour, messages, messageIndexMap), old(shown), at, after)
    {
      ghost var now := AllFlags(flavour, messages, messageIndexMap);
      if flavour == Readable {
        if at > 0 {
          DataChanged(at - 1, Role.IsLastInSequence);
        }
        if after < |messages| {
          DataChanged(after, Role.IsFirstInSequence);
        }
        assert shown == ShowSeam(now, old(shown), at, after);
      }
    }

    method InsertMessagesAt(insertIndex: nat, newMessages: seq<Message>)
      requires Valid() && insertIndex <= |messages| && newMessages != []
      requires Distinct(Ids(messages + newMessages))
      modifies this
      ensures Valid() && messages == old(messages)[..insertIndex] + newMessages + old(messages)[insertIndex..]
      ensures chatId == old(chatId) && albumMessageMap == old(albumMessageMap)
      ensures old(ViewOk()) && NoAlbums(newMessages) ==> ViewOk()
    {
      ghost var rows, index := messages, messageIndexMap;
      BaseInsertMessagesAt(insertIndex, newMessages);
      UpdateSequences(insertIndex, insertIndex + |newMessages|);
      if NoAlbums(rows) && NoAlbums(newMessages) {
        InsertKeepsShown(flavour, rows, index, newMessages, insertIndex, messages, messageIndexMap);
      }
    }

    method AppendMessages(newMessages: seq<Message>)
      requires Valid() && newMessages != []
      requires Distinct(Ids(messages + newMessages))
      modifies this
      ensures Valid() && messages == AppendRows(flavour, old(messages), newMessages)
      ensures chatId == old(chatId) && albumMessageMap == old(albumMessageMap)
      ensures old(ViewOk()) && NoAlbums(newMessages) ==> ViewOk()
    {
      if flavour == Readable {
        AppendAtEnd(newMessages);
      } else {
        PrependAtStart(newMessages);
      }
    }

    method PrependMessages(newMessages: seq<Message>)
      requires Valid() && newMessages != []
      requires Distinct(Ids(messages + newMessages))
      modifies this
      ensures Valid() && messages == PrependRows(flavour, old(messages), newMessages)
      ensures chatId == old(chatId) && albumMessageMap == old(albumMessageMap)
      ensures old(ViewOk()) && NoAlbums(newMessages) ==> ViewOk()
    {
      if flavour == Readable {
        PrependAtStart(newMessages);
      } else {
        AppendAtEnd(newMessages);
      }
    }

    method AppendAtEnd(newMessages: seq<Message>)
      requires Valid() && newMessages != []
      requires Distinct(Ids(messages + newMessages))
      modifies this
      ensures Valid() && messages == old(messages) + newMessages
      ensures chatId == old(chatId) && albumMessageMap == old(albumMessageMap)
      ensures old(ViewOk()) && NoAlbums(newMessages) ==> ViewOk()
    {
      ghost var rows, index := messages, messageIndexMap;
      var oldSize := |messages|;
      BaseAppendMessages(newMessages);
      UpdateSequences(oldSize, oldSize + |newMessages|);
      if NoAlbums(rows) && NoAlbums(newMessages) {
        assert messages == rows[..oldSize] + newMessages + rows[oldSize..];
        InsertKeepsShown(flavour, rows, index, newMessages, oldSize, messages, messageIndexMap);
      }
    }

    method PrependAtStart(newMessages: seq<Message>)
      requires Valid() && newMessages != []
      requires Distinct(Ids(messages + newMessages))
      modifies this
      ensures Valid() && messages == newMessages + old(messages)
      ensures chatId == old(chatId) && albumMessageMap == old(albumMessageMap)
      ensures old(ViewOk()) && NoAlbums(newMessages) ==> ViewOk()
    {
      ghost var rows, index := messages, messageIndexMap;
      BasePrependMessages(newMessages);
      UpdateSequences(0, |newMessages|);
      if NoAlbums(rows) && NoAlbums(newMessages) {
        assert messages == rows[..0] + newMessages + rows[0..];
        InsertKeepsShown(flavour, rows, index, newMessages, 0, messages, messageIndexMap);
      }
    }

    /** An append or a prepend, decided by the last row that is not sponsored. */
    method InsertMessages(newMessages: seq<Message>)
      requires Valid() && newMessages != []
      requires Distinct(Ids(messages + newMessages))
      modifies this
      ensures Valid() && messages == InsertRows(flavour, old(messages), newMessages)
      ensures chatId == old(chatId) && albumMessageMap == old(albumMessageMap)
      ensures old(ViewOk()) && NoAlbums(newMessages) ==> ViewOk()
    {
      if messages == [] {
        AppendMessages(newMessages);
      } else {
        var lastKnownId := -1;
        var i := |messages| - 1;
        assert messages[..i + 1] == messages;
        while i >= 0
          invariant -1 <= i < |messages| && lastKnownId == -1
          invariant LastKnownId(messages) == LastKnownId(messages[..i + 1])
        {
          assert messages[..i + 1][..i] == messages[..i];
          if !messages[i].isSponsored {
            lastKnownId := messages[i].id;
            break;
          }
          i := i - 1;
        }
        if lastKnownId < newMessages[0].id {
          AppendMessages(newMessages);
        } else {
          PrependMessages(newMessages);
        }
      }
    }

    // Albums

    /** The loop that marks the rows of one album, the first id being the main one. */
    method MarkAlbumRows(messageIds: seq<int>)
      requires Valid() && Distinct(messageIds)
      modifies this`messages
      ensures messages == MarkAll(old(messages), messageIds)
    {
      ghost var before := messages;
      for i := 0 to |messageIds|
        invariant |messages| == |before|
        invariant forall k :: 0 <= k < |before| ==> messages[k] == MarkedBy(before[k], messageIds, i)
      {
        var position := Lookup(messageIndexMap, messageIds[i]);
        LookupIsPosition(before, messageIndexMap, messageIds[i]);
        MarkedByNext(before, messageIds, i);
        if position > -1 {
          assert before[position].id == Ids(before)[position] == messageIds[i];
          forall k | 0 <= k < |before| && k != position ensures before[k].id != messageIds[i] {
            assert Ids(before)[k] != Ids(before)[position];
          }
          var isMain := i == 0;
          messages := messages[position := messages[position].(
            albumEntryFilter := !isMain, albumMessageIds := if isMain then messageIds else [])];
        } else {
          forall k | 0 <= k < |before| ensures before[k].id != messageIds[i] {
            assert Ids(before)[k] in Ids(before);
          }
        }
      }
      assert messageIds[..|messageIds|] == messageIds;
    }

    /** Refreshes one album: sorts its entry, drops erased ids if asked to, and re-marks its rows.
        An entry that becomes empty is removed and then stored again as the empty list. */
    method UpdateAlbumMessages(albumId: int, checkDeleted: bool)
      requires Valid()
      modifies this`messages, this`albumMessageMap
      ensures Valid() && Ids(messages) == Ids(old(messages)) && Bare(messages) == Bare(old(messages))
      ensures albumId !in old(albumMessageMap) ==> messages == old(messages) && albumMessageMap == old(albumMessageMap)
      ensures albumId in old(albumMessageMap) ==>
                var entry := Refreshed(old(albumMessageMap)[albumId], messageIndexMap, checkDeleted);
                messages == MarkAll(old(messages), entry) && albumMessageMap == old(albumMessageMap)[albumId := entry]
    {
      if albumId in albumMessageMap {
        ghost var before := messages;
        ghost var table := albumMessageMap;
        RefreshedDistinct(albumMessageMap[albumId], messageIndexMap, checkDeleted);
        var messageIds := SortIds(albumMessageMap[albumId]);
        if checkDeleted {
          messageIds := StillLoaded(messageIds, messageIndexMap);
        }
        if messageIds == [] {
          albumMessageMap := map a | a in albumMessageMap && a != albumId :: albumMessageMap[a];
          assert MarkAll(messages, messageIds) == messages;
        } else {
          MarkAlbumRows(messageIds);
        }
        albumMessageMap := albumMessageMap[albumId := messageIds];
        assert albumMessageMap == table[albumId := messageIds];
      }
    }

    method SetMessageAlbum(message: Message, ghost pending: set<int>)
      requires Valid()
      requires HasRow(messages, message.id, message.albumId)
      requires message.id in pending
      modifies this`messages, this`albumMessageMap
      ensures Valid() && Ids(messages) == Ids(old(messages)) && Bare(messages) == Bare(old(messages))
      ensures old(AlbumsExceptFor(messages, albumMessageMap, pending)) ==>
                AlbumsExceptFor(messages, albumMessageMap, pending - {message.id})
      ensures message.albumId == 0 ==> messages == old(messages)
    {
      ghost var rows, table := messages, albumMessageMap;
      ghost var p :| 0 <= p < |messages| && messages[p].id == message.id && messages[p].albumId == message.albumId;
      var albumId := message.albumId;
      if albumId != 0 {
        if albumId in albumMessageMap {
          var messageIds := albumMessageMap[albumId];
          if message.id !in messageIds {
            albumMessageMap := albumMessageMap[albumId := messageIds + [message.id]];
          }
        } else {
          albumMessageMap := albumMessageMap[albumId := [message.id]];
        }
        ghost var entry := albumMessageMap[albumId];
        UpdateAlbumMessages(albumId, false);
        SortFacts(entry);
        assert albumMessageMap == table[albumId := SortIds(entry)];
        if AlbumsExceptFor(rows, table, pending) {
          RegisterInAlbum(rows, table, pending, p, SortIds(entry));
        }
      } else if AlbumsExceptFor(rows, table, pending) {
        RegisterPlain(rows, table, pending, p);
      }
    }

    /** Enters freshly inserted rows into their albums, one after the other. */
    method SetMessagesAlbum(newMessages: seq<Message>)
      requires Valid() && Distinct(Ids(newMessages))
      requires forall k :: 0 <= k < |newMessages| ==> HasRow(messages, newMessages[k].id, newMessages[k].albumId)
      modifies this`messages, this`albumMessageMap
      ensures Valid() && Bare(messages) == Bare(old(messages)) && Ids(messages) == Ids(old(messages))
      ensures old(AlbumsExceptFor(messages, albumMessageMap, IdSet(newMessages))) ==> AlbumsOk()
      ensures NoAlbums(newMessages) ==> messages == old(messages)
    {
      ghost var before := messages;
      assert newMessages[0..] == newMessages;
      for i := 0 to |newMessages|
        invariant Valid() && Bare(messages) == Bare(before) && Ids(messages) == Ids(before)
        invariant old(AlbumsExceptFor(messages, albumMessageMap, IdSet(newMessages))) ==>
                    AlbumsExceptFor(messages, albumMessageMap, IdSet(newMessages[i..]))
        invariant NoAlbums(newMessages) ==> messages == before
      {
        HasRowOfBare(before, messages, newMessages[i].id, newMessages[i].albumId);
        IdSetStep(newMessages, i);
        SetMessageAlbum(newMessages[i], IdSet(newMessages[i..]));
      }
      assert IdSet(newMessages[|newMessages|..]) == {};
    }

    // Removal

    /** Erases a range of rows, rebuilds the index behind it and rescans the albums of the erased rows. */
    method BaseRemoveRange(firstDeleted: int, lastDeleted: int)
      requires Valid() && 0 <= firstDeleted <= lastDeleted < |messages|
      modifies this
      ensures Valid() && chatId == old(chatId)
      ensures Bare(messages) == CutRange(Bare(old(messages)), firstDeleted, lastDeleted)
      ensures Ids(messages) == CutRange(Ids(old(messages)), firstDeleted, lastDeleted)
      ensures shown == ShowRemoved(old(shown), firstDeleted, lastDeleted)
      ensures old(AlbumsOk()) ==> AlbumsOk()
      ensures NoAlbums(old(messages)) ==> messages == CutRange(old(messages), firstDeleted, lastDeleted)
    {
      CutOfMaps(messages, firstDeleted, lastDeleted);
      var rescanAlbumIds := EraseRows(firstDeleted, lastDeleted);
      UpdateAlbumsMessages(rescanAlbumIds);
    }

    /** All but the rescan: rows, index and view are right again. */
    method EraseRows(firstDeleted: int, lastDeleted: int) returns (rescanAlbumIds: seq<int>)
      requires Valid() && 0 <= firstDeleted <= lastDeleted < |messages|
      modifies this
      ensures Valid() && chatId == old(chatId)
      ensures messages == CutRange(old(messages), firstDeleted, lastDeleted)
      ensures shown == ShowRemoved(old(shown), firstDeleted, lastDeleted)
      ensures forall k :: 0 <= k < |rescanAlbumIds| ==> rescanAlbumIds[k] != 0 && rescanAlbumIds[k] in albumMessageMap
      ensures old(AlbumsOk()) ==> AlbumsToRescan(messages, albumMessageMap, Elements(rescanAlbumIds))
      ensures NoAlbums(old(messages)) ==> rescanAlbumIds == []
    {
      ghost var rows, index := messages, messageIndexMap;
      ghost var head, gone, tail := rows[..firstDeleted], rows[firstDeleted..lastDeleted + 1], rows[lastDeleted + 1..];
      rescanAlbumIds := DropFromIndex(firstDeleted, lastDeleted);
      assert rows == head + gone + tail;
      IndexErase(head, gone, tail, index);
      messages := messages[..firstDeleted] + messages[lastDeleted + 1..];
      RebuildIndex(firstDeleted);
      shown := ShowRemoved(shown, firstDeleted, lastDeleted);
      if AlbumsExact(rows, albumMessageMap) {
        DirtyAlbums(rows, albumMessageMap, firstDeleted, lastDeleted + 1, rescanAlbumIds);
        EraseMakesDirty(head, gone, tail, albumMessageMap, Elements(rescanAlbumIds));
      }
    }

    /** The loop that takes the erased rows' ids out of the map and notes their albums. */
    method DropFromIndex(firstDeleted: int, lastDeleted: int) returns (rescanAlbumIds: seq<int>)
      requires Valid() && 0 <= firstDeleted <= lastDeleted < |messages|
      modifies this`messageIndexMap
      ensures messageIndexMap == old(messageIndexMap) - Elements(Ids(messages[firstDeleted..lastDeleted + 1]))
      ensures AlbumsOf(messages, albumMessageMap, firstDeleted, lastDeleted + 1, rescanAlbumIds)
      ensures NoAlbums(messages) ==> rescanAlbumIds == []
    {
      ghost var index := messageIndexMap;
      rescanAlbumIds := [];
      for i := firstDeleted to lastDeleted + 1
        invariant messageIndexMap == index - Elements(Ids(messages[firstDeleted..i]))
        invariant AlbumsOf(messages, albumMessageMap, firstDeleted, i, rescanAlbumIds)
        invariant NoAlbums(messages) ==> rescanAlbumIds == []
      {
        var message := messages[i];
        IdsNext(messages, firstDeleted, i);
        AlbumsOfNext(messages, albumMessageMap, firstDeleted, i, rescanAlbumIds);
        messageIndexMap := messageIndexMap - {message.id};
        if message.albumId != 0 && message.albumId in albumMessageMap {
          rescanAlbumIds := rescanAlbumIds + [message.albumId];
        }
      }
    }

    /** Rescans a list of albums after rows were erased; the list may name an album more than once. */
    method UpdateAlbumsMessages(albumIds: seq<int>)
      requires Valid() && forall k :: 0 <= k < |albumIds| ==> albumIds[k] != 0 && albumIds[k] in albumMessageMap
      modifies this`messages, this`albumMessageMap
      ensures Valid() && Bare(messages) == Bare(old(messages)) && Ids(messages) == Ids(old(messages))
      ensures old(AlbumsToRescan(messages, albumMessageMap, Elements(albumIds))) ==> AlbumsOk()
      ensures albumIds == [] ==> messages == old(messages)
    {
      ghost var settled := old(AlbumsToRescan(messages, albumMessageMap, Elements(albumIds)));
      assert albumIds[0..] == albumIds;
      for i := 0 to |albumIds|
        invariant Valid() && Bare(messages) == Bare(old(messages)) && Ids(messages) == Ids(old(messages))
        invariant forall k :: 0 <= k < |albumIds| ==> albumIds[k] in albumMessageMap
        invariant settled ==> AlbumsToRescan(messages, albumMessageMap, Elements(albumIds[i..]))
        invariant i == 0 ==> messages == old(messages)
      {
        assert albumIds[i..] == [albumIds[i]] + albumIds[i + 1..];
        RescanNext(albumIds[i], Elements(albumIds[i..]), Elements(albumIds[i + 1..]));
      }
      assert Elements(albumIds[|albumIds|..]) == {};
      if settled {
        RescanDone(messages, albumMessageMap);
      }
    }

    /** Rescans one album; those `left` to rescan may name it again. */
    method RescanNext(albumId: int, ghost dirty: set<int>, ghost left: set<int>)
      requires Valid() && albumId != 0 && albumId in albumMessageMap && dirty - {albumId} <= left
      modifies this`messages, this`albumMessageMap
      ensures Valid() && Bare(messages) == Bare(old(messages)) && Ids(messages) == Ids(old(messages))
      ensures albumMessageMap.Keys == old(albumMessageMap.Keys)
      ensures old(AlbumsToRescan(messages, albumMessageMap, dirty)) ==> AlbumsToRescan(messages, albumMessageMap, left)
    {
      ghost var rows, table := messages, albumMessageMap;
      ghost var settled := AlbumsToRescan(rows, table, dirty);
      if settled {
        RescanAlbum(rows, messageIndexMap, table, dirty, albumId);
      }
      UpdateAlbumMessages(albumId, true);
      if settled {
        DirtyShrinks(messages, albumMessageMap, dirty - {albumId}, left);
      }
    }

    method RemoveRange(firstDeleted: int, lastDeleted: int)
      requires Valid() && lastDeleted < |messages|
      modifies this
      ensures Valid() && chatId == old(chatId)
      ensures Bare(messages) == CutRange(Bare(old(messages)), firstDeleted, lastDeleted)
      ensures Ids(messages) == CutRange(Ids(old(messages)), firstDeleted, lastDeleted)
      ensures old(AlbumsOk()) ==> AlbumsOk()
      ensures old(ViewOk()) ==> ViewOk()
    {
      ghost var rows, index := messages, messageIndexMap;
      if firstDeleted >= 0 && firstDeleted <= lastDeleted {
        BaseRemoveRange(firstDeleted, lastDeleted);
        UpdateSequences(firstDeleted, firstDeleted);
        if NoAlbums(rows) {
          RemoveKeepsShown(flavour, rows, index, firstDeleted, lastDeleted, messages, messageIndexMap);
        }
      }
    }

    // Batched deletion

    method HandleMessagesDeleted(chatId: int, messageIds: seq<int>)
      requires Valid()
      modifies this
      ensures Valid() && this.chatId == old(this.chatId)
      ensures chatId != this.chatId ==> messages == old(messages) && albumMessageMap == old(albumMessageMap)
      ensures chatId == this.chatId ==> Ids(messages) == DeleteAll(Ids(old(messages)), LookupOrder(flavour, messageIds))
      ensures chatId == this.chatId && TowardsStart(Ids(old(messages)), LookupOrder(flavour, messageIds)) ==>
                (Ids(messages) == Without(Ids(old(messages)), messageIds)
                 <==> MarkerClear(Ids(old(messages)), messageIds))
      ensures forall m :: m in Bare(messages) ==> m in Bare(old(messages))
      ensures old(AlbumsOk()) ==> AlbumsOk()
      ensures old(ViewOk()) ==> ViewOk()
    {
      if chatId == this.chatId {
        ghost var before := Ids(messages);
        if flavour == Readable {
          DeleteBackwards(messageIds);
        } else {
          DeleteForwards(messageIds);
        }
        if TowardsStart(before, LookupOrder(flavour, messageIds)) {
          DeletionExact(before, LookupOrder(flavour, messageIds));
          LookupOrderSameMembers(flavour, before, messageIds);
        }
      }
    }

    /** MessagesModel::handleMessagesDeleted: the batch is looked up from its end. */
    method DeleteBackwards(messageIds: seq<int>)
      requires Valid()
      modifies this
      ensures Valid() && chatId == old(chatId)
      ensures Ids(messages) == DeleteAll(Ids(old(messages)), Reverse(messageIds))
      ensures forall m :: m in Bare(messages) ==> m in Bare(old(messages))
      ensures old(AlbumsOk()) ==> AlbumsOk()
      ensures old(ViewOk()) ==> ViewOk()
    {
      var count := |messageIds|;
      ghost var scan := Reverse(messageIds);
      ghost var goal := DeleteAll(Ids(messages), scan);
      assert scan[0..] == scan;
      var firstPosition, lastPosition := count, count;
      var i := count - 1;
      while i > -1
        invariant -1 <= i < count && Valid() && chatId == old(chatId)
        invariant InRange(Scan(Ids(messages), firstPosition, lastPosition), count)
        invariant var s := Scan(Ids(messages), firstPosition, lastPosition);
                  Finish(ScanAll(s, scan[count - 1 - i..], count), count) == goal
        invariant forall m :: m in Bare(messages) ==> m in Bare(old(messages))
        invariant old(AlbumsOk()) ==> AlbumsOk()
        invariant old(ViewOk()) ==> ViewOk()
      {
        TailStep(scan, count - 1 - i);
        firstPosition, lastPosition := LookUpNext(messageIds[i], firstPosition, lastPosition, count);
        i := i - 1;
      }
      assert scan[count..] == [];
      if firstPosition != count && lastPosition != count {
        RemoveRange(firstPosition, lastPosition);
      }
    }

    /** InvertedMediaMessagesModel::handleMessagesDeleted: the batch is looked up from its start. */
    method DeleteForwards(messageIds: seq<int>)
      requires Valid()
      modifies this
      ensures Valid() && chatId == old(chatId)
      ensures Ids(messages) == DeleteAll(Ids(old(messages)), messageIds)
      ensures forall m :: m in Bare(messages) ==> m in Bare(old(messages))
      ensures old(AlbumsOk()) ==> AlbumsOk()
      ensures old(ViewOk()) ==> ViewOk()
    {
      var count := |messageIds|;
      ghost var goal := DeleteAll(Ids(messages), messageIds);
      assert messageIds[0..] == messageIds;
      var firstPosition, lastPosition := count, count;
      for i := 0 to count
        invariant Valid() && chatId == old(chatId)
        invariant InRange(Scan(Ids(messages), firstPosition, lastPosition), count)
        invariant var s := Scan(Ids(messages), firstPosition, lastPosition);
                  Finish(ScanAll(s, messageIds[i..], count), count) == goal
        invariant forall m :: m in Bare(messages) ==> m in Bare(old(messages))
        invariant old(AlbumsOk()) ==> AlbumsOk()
        invariant old(ViewOk()) ==> ViewOk()
      {
        TailStep(messageIds, i);
        firstPosition, lastPosition := LookUpNext(messageIds[i], firstPosition, lastPosition, count);
      }
      assert messageIds[count..] == [];
      if firstPosition != count && lastPosition != count {
        RemoveRange(firstPosition, lastPosition);
      }
    }

    /** The body both loops share: extend the open range, or remove it and start the next one. */
    method LookUpNext(messageId: int, first: int, last: int, count: int) returns (firstPosition: int, lastPosition: int)
      requires Valid() && InRange(Scan(Ids(messages), first, last), count)
      modifies this
      ensures Valid() && chatId == old(chatId)
      ensures Scan(Ids(messages), firstPosition, lastPosition)
              == Step(Scan(Ids(old(messages)), first, last), messageId, count)
      ensures forall m :: m in Bare(messages) ==> m in Bare(old(messages))
      ensures old(AlbumsOk()) ==> AlbumsOk()
      ensures old(ViewOk()) ==> ViewOk()
    {
      firstPosition, lastPosition := first, last;
      var position := Lookup(messageIndexMap, messageId);
      LookupIsPosition(messages, messageIndexMap, messageId);
      if position >= 0 {
        if lastPosition == count {
          lastPosition := position;
        }
        if firstPosition == count {
          firstPosition := position;
        }
        if position < firstPosition - 1 {
          RemoveRange(firstPosition, lastPosition);
          firstPosition, lastPosition := position, position;
        } else {
          firstPosition := position;
        }
      }
    }

    // Received batches

    method CollectNewMessages(received: seq<Message>) returns (newMessagesList: seq<Message>)
      requires Valid()
      ensures newMessagesList == NewOnes(received, chatId, Elements(Ids(messages)))
    {
      ghost var known := Elements(Ids(messages));
      newMessagesList := [];
      for i := 0 to |received|
        invariant newMessagesList == NewOnes(received[..i], chatId, known)
      {
        var message := received[i];
        NewOnesSnoc(received[..i], message, chatId, known);
        assert received[..i + 1] == received[..i] + [message];
        if message.id != 0 && message.chatId == chatId && message.id !in messageIndexMap {
          newMessagesList := newMessagesList + [message.Received()];
        }
      }
      assert received[..|received|] == received;
    }

    /** Adds the messages of a received batch that are not loaded yet. The count for the reload
        uses the size of the received batch, which shadows the list of loaded messages there. */
    method HandleInsertMessages(received: seq<Message>, setAlbum: bool) returns (reloadNeeded: bool,
          newMessagesList: seq<Message>)
      requires Valid() && Distinct(Ids(received))
      modifies this
      ensures Valid() && chatId == old(chatId)
      ensures newMessagesList
              == Arranged(flavour == InvertedMedia, NewOnes(received, chatId, Elements(Ids(old(messages)))))
      ensures newMessagesList == [] ==> messages == old(messages) && albumMessageMap == old(albumMessageMap)
      ensures newMessagesList != [] ==> Bare(messages) == Bare(InsertRows(flavour, old(messages), newMessagesList))
      ensures reloadNeeded == (newMessagesList != [] && |newMessagesList| + |received| < 10)
      ensures old(AlbumsOk()) && setAlbum ==> AlbumsOk()
      ensures old(ViewOk()) && NoAlbums(newMessagesList) ==> ViewOk()
    {
      ghost var rows, table := messages, albumMessageMap;
      ghost var known := Elements(Ids(messages));
      newMessagesList := CollectNewMessages(received);
      NewOnesDistinct(received, chatId, known);
      ArrangedFacts(flavour == InvertedMedia, newMessagesList);
      newMessagesList := Arranged(flavour == InvertedMedia, newMessagesList);
      NewRows(rows, received, chatId, newMessagesList);
      if newMessagesList != [] {
        InsertMessages(newMessagesList);
        if AlbumsExact(rows, table) {
          InsertedPending(flavour, rows, newMessagesList, messages, table);
        }
        InsertedRows(flavour, rows, newMessagesList, messages);
        if setAlbum {
          SetMessagesAlbum(newMessagesList);
        }
      }
      reloadNeeded := newMessagesList != [] && |newMessagesList| + |received| < 10;
    }

    /** A sent message gets its final id: its row is replaced and moved to the end. The index follows; as no flags are
        announced, the view stays right only for a row that is a sequence of its own before and after and no link
        between its neighbours, or for the last row if it joins the row before it as it did. */
    method HandleMessageSendSucceeded(chatId: int, oldMessageId: int, message: Message)
      requires Valid() && (message.id == oldMessageId || message.id !in Ids(messages))
      modifies this
      ensures Valid() && this.chatId == old(this.chatId) && albumMessageMap == old(albumMessageMap)
      ensures chatId == this.chatId && oldMessageId in old(messageIndexMap) ==>
                var pos := PositionOf(Ids(old(messages)), oldMessageId);
                && messages == SentRows(old(messages), pos, message.Received())
                && messages == old(messages)[..pos] + old(messages)[pos + 1..] + [message.Received()]
      ensures chatId == this.chatId && oldMessageId in old(messageIndexMap) && old(ViewOk()) && message.albumId == 0 ==>
                var pos := PositionOf(Ids(old(messages)), oldMessageId);
                (ViewOk() <==> flavour == InvertedMedia || SentAlone(old(messages), pos, message.Received()))
      ensures chatId != this.chatId || oldMessageId !in old(messageIndexMap) ==>
                messages == old(messages) && messageIndexMap == old(messageIndexMap)
    {
      if this.chatId == chatId && oldMessageId in messageIndexMap {
        ghost var rows, index := messages, messageIndexMap;
        LookupIsPosition(messages, messageIndexMap, oldMessageId);
        var pos := messageIndexMap[oldMessageId];
        ReplaceAndMove(pos, message.Received());
        if NoAlbums(rows) && message.albumId == 0 {
          SentKeepsAlbumless(rows, pos, message.Received());
          SentShownExact(flavour, rows, index, pos, message.Received(), messageIndexMap);
        }
      }
    }

    method ReplaceAndMove(pos: nat, newMessage: Message)
      requires Valid() && pos < |messages| && (newMessage.id == messages[pos].id || newMessage.id !in Ids(messages))
      modifies this`messages, this`messageIndexMap, this`shown
      ensures Valid() && messages == SentRows(old(messages), pos, newMessage) && shown == SentShown(old(shown), pos)
    {
      ghost var rows, index := messages, messageIndexMap;
      var oldMessageId := messages[pos].id;
      messages := messages[pos := newMessage];
      messageIndexMap := map id | id in messageIndexMap && id != oldMessageId :: messageIndexMap[id];
      messageIndexMap := messageIndexMap[newMessage.id := pos];
      IndexRename(rows, index, pos, newMessage, messageIndexMap);
      var newPos := |messages| - 1;
      if newPos > pos {
        ghost var replaced := messages;
        messages := messages[..pos] + messages[pos + 1..] + [messages[pos]];
        shown := shown[..pos] + shown[pos + 1..] + [shown[pos]];
        IndexMoveToEnd(replaced, messageIndexMap, pos);
        RebuildIndex(pos);
      }
    }

    /** Puts one message where its id belongs, if the list is known to reach that far. Only appending and
        prepending are swapped by the inverted model; an insertion in between goes to the row found. */
    method InsertMessageInOrder(message: Message, startReached: bool, endReached: bool)
      requires Valid() && message.id !in Ids(messages)
      modifies this
      ensures Valid() && chatId == old(chatId) && albumMessageMap == old(albumMessageMap)
      ensures Ids(messages) == InsertInOrder(flavour, Ids(old(messages)), message.id, startReached, endReached)
      ensures InListOrder(flavour, Ids(old(messages))) ==>
                PutInPlace(flavour, Ids(old(messages)), message.id, startReached, endReached, Ids(messages))
      ensures OnlyAdded(old(messages), message.Received(), messages)
      ensures old(ViewOk()) && message.albumId == 0 ==> ViewOk()
    {
      PutInOrder(message, startReached, endReached);
      InOrderExact(flavour, Ids(old(messages)), message.id, startReached, endReached);
    }

    /** The insertion itself. */
    method PutInOrder(message: Message, startReached: bool, endReached: bool)
      requires Valid() && message.id !in Ids(messages)
      modifies this
      ensures Valid() && chatId == old(chatId) && albumMessageMap == old(albumMessageMap)
      ensures Ids(messages) == InsertInOrder(flavour, Ids(old(messages)), message.id, startReached, endReached)
      ensures OnlyAdded(old(messages), message.Received(), messages)
      ensures old(ViewOk()) && message.albumId == 0 ==> ViewOk()
    {
      var inverted := flavour == InvertedMedia;
      var data := [message.Received()];
      OneMoreId(flavour, messages, message.Received());
      OneMoreRow(flavour, messages, message.Received());
      if messages == [] {
        if endReached && startReached {
          AppendMessages(data);
        }
      } else if message.id > (if inverted then messages[0].id else messages[|messages| - 1].id) {
        if endReached {
          AppendMessages(data);
        }
      } else if message.id < (if inverted then messages[|messages| - 1].id else messages[0].id) {
        if startReached {
          PrependMessages(data);
        }
      } else {
        InsertBetween(message);
      }
    }

    /** The loop that puts the message in front of the first row past its id. */
    method InsertBetween(message: Message)
      requires Valid() && message.id !in Ids(messages)
      modifies this
      ensures Valid() && chatId == old(chatId) && albumMessageMap == old(albumMessageMap)
      ensures var ids := Ids(old(messages));
              var i := PlaceFor(flavour, ids, message.id);
              Ids(messages) == if i < |ids| then ids[..i] + [message.id] + ids[i..] else ids
      ensures OnlyAdded(old(messages), message.Received(), messages)
      ensures old(ViewOk()) && message.albumId == 0 ==> ViewOk()
    {
      var i := FindPlace(message.id);
      if i < |messages| {
        OneMoreId(flavour, messages, message.Received());
        InsertOneId(messages, i, message.Received());
        InsertMessagesAt(i, [message.Received()]);
      }
    }

    /** The first row past the id, in list order. */
    method FindPlace(messageId: int) returns (i: nat)
      ensures i == PlaceFor(flavour, Ids(messages), messageId)
    {
      ghost var ids := Ids(messages);
      i := 0;
      assert ids[0..] == ids;
      while i < |messages|
        invariant 0 <= i <= |messages|
        invariant PlaceFor(flavour, ids, messageId) == i + PlaceFor(flavour, ids[i..], messageId)
      {
        TailStep(ids, i);
        var id := messages[i].id;
        if if flavour == InvertedMedia then id < messageId else id > messageId {
          break;
        }
        i := i + 1;
      }
    }
  }

  function PlaceFor(flavour: Flavour, ids: seq<int>, id: int): nat
  {
    if ids == [] || (if flavour == InvertedMedia then ids[0] < id else ids[0] > id) then 0
    else 1 + PlaceFor(flavour, ids[1..], id)
  }

  function InsertInOrder(flavour: Flavour, ids: seq<int>, id: int, startReached: bool, endReached: bool): seq<int>
  {
    if ids == [] then
      if endReached && startReached then [id] else ids
    else
      var newest, oldest := if flavour == InvertedMedia then ids[0] else ids[|ids| - 1],
                            if flavour == InvertedMedia then ids[|ids| - 1] else ids[0];
      if id > newest then
        if endReached then AppendRows(flavour, ids, [id]) else ids
      else if id < oldest then
        if startReached then PrependRows(flavour, ids, [id]) else ids
      else
        var i := PlaceFor(flavour, ids, id);
        if i < |ids| then ids[..i] + [id] + ids[i..] else ids
  }

  /** The rows are those that were there, and perhaps the new one. */
  ghost predicate OnlyAdded(before: seq<Message>, m: Message, after: seq<Message>)
  {
    forall k :: 0 <= k < |after| ==> after[k] in before || after[k] == m
  }

  /** The order of the rows. */
  ghost predicate InListOrder(flavour: Flavour, ids: seq<int>)
  {
    if flavour == InvertedMedia then Descending(ids) else Ascending(ids)
  }

  /** Where the id belongs is loaded: a newer id than all rows needs the end to be reached, an older one the start. */
  ghost predicate Reaches(ids: seq<int>, id: int, startReached: bool, endReached: bool)
  {
    ((forall x :: x in ids ==> x < id) ==> endReached) && ((forall x :: x in ids ==> id < x) ==> startReached)
  }

  /** The list with the id in order if its place is loaded, and else as it was. */
  ghost predicate PutInPlace(flavour: Flavour, ids: seq<int>, id: int, startReached: bool, endReached: bool,
        ids': seq<int>)
  {
    && InListOrder(flavour, ids')
    && if Reaches(ids, id, startReached, endReached) then forall x :: x in ids' <==> x in ids || x == id
       else ids' == ids
  }

  lemma {:induction false} PlaceFacts(flavour: Flavour, ids: seq<int>, id: int)
    ensures var i := PlaceFor(flavour, ids, id);
            && i <= |ids|
            && (forall k :: 0 <= k < i ==> if flavour == InvertedMedia then id <= ids[k] else ids[k] <= id)
            && (i < |ids| ==> if flavour == InvertedMedia then ids[i] < id else id < ids[i])
  {
    if ids == [] {
    } else {
      PlaceFacts(flavour, ids[1..], id);
    }
  }

  /** `id` stands between the first i ids and the others. */
  ghost predicate Divides(flavour: Flavour, ids: seq<int>, id: int, i: nat)
  {
    && i <= |ids|
    && (forall k :: 0 <= k < i ==> if flavour == InvertedMedia then id < ids[k] else ids[k] < id)
    && (forall k :: i <= k < |ids| ==> if flavour == InvertedMedia then ids[k] < id else id < ids[k])
  }

  lemma {:induction false} OneMoreMember<T>(s: seq<T>, x: T, i: nat, y: T)
    requires i <= |s|
    ensures y in s[..i] + [x] + s[i..] <==> y in s || y == x
  {
    assert s == s[..i] + s[i..];
  }

  lemma {:induction false} DividedInOrder(flavour: Flavour, ids: seq<int>, id: int, i: nat)
    requires InListOrder(flavour, ids) && Divides(flavour, ids, id, i)
    ensures InListOrder(flavour, ids[..i] + [id] + ids[i..])
  {
    var ids' := ids[..i] + [id] + ids[i..];
    assert forall k :: 0 <= k < |ids'| ==> ids'[k] == if k < i then ids[k] else if k == i then id else ids[k - 1];
  }

  lemma {:induction false} PlaceDivides(flavour: Flavour, ids: seq<int>, id: int)
    requires InListOrder(flavour, ids) && id !in ids
    ensures Divides(flavour, ids, id, PlaceFor(flavour, ids, id))
  {
    PlaceFacts(flavour, ids, id);
    forall k | 0 <= k < |ids| ensures ids[k] != id {
      assert ids[k] in ids;
    }
  }

  lemma {:induction false} ReachesExact(flavour: Flavour, ids: seq<int>, id: int, startReached: bool, endReached: bool)
    requires InListOrder(flavour, ids) && ids != []
    ensures var newest, oldest := if flavour == InvertedMedia then ids[0] else ids[|ids| - 1],
                                  if flavour == InvertedMedia then ids[|ids| - 1] else ids[0];
            Reaches(ids, id, startReached, endReached)
            <==> (newest < id ==> endReached) && (id < oldest ==> startReached)
  {
    assert ids[0] in ids && ids[|ids| - 1] in ids;
  }

  /** A message is put in if and only if the place of its id is loaded, and then into that place. */
  lemma {:induction false} InOrderExact(flavour: Flavour, ids: seq<int>, id: int, startReached: bool, endReached: bool)
    requires id !in ids
    ensures InListOrder(flavour, ids) ==>
              PutInPlace(flavour, ids, id, startReached, endReached,
                         InsertInOrder(flavour, ids, id, startReached, endReached))
  {
    if ids == [] {
      assert Reaches(ids, id, startReached, endReached) <==> startReached && endReached;
    } else if InListOrder(flavour, ids) {
      ReachesExact(flavour, ids, id, startReached, endReached);
      PlaceDivides(flavour, ids, id);
      var i := PlaceFor(flavour, ids, id);
      DividedInOrder(flavour, ids, id, i);
      forall x ensures x in ids[..i] + [id] + ids[i..] <==> x in ids || x == id {
        OneMoreMember(ids, id, i, x);
      }
      PlacedAt(flavour, ids, id, startReached, endReached, i);
    }
  }

  lemma {:induction false} PlacedAt(flavour: Flavour, ids: seq<int>, id: int, startReached: bool, endReached: bool,
        i: nat)
    requires ids != [] && Divides(flavour, ids, id, i) && i == PlaceFor(flavour, ids, id)
    ensures var newest, oldest := if flavour == InvertedMedia then ids[0] else ids[|ids| - 1],
                                  if flavour == InvertedMedia then ids[|ids| - 1] else ids[0];
            InsertInOrder(flavour, ids, id, startReached, endReached)
            == if (newest < id ==> endReached) && (id < oldest ==> startReached) then ids[..i] + [id] + ids[i..]
               else ids
  {
    assert ids[..0] == [] && ids[0..] == ids && ids[..|ids|] == ids && ids[|ids|..] == [];
    assert [] + [id] + ids == [id] + ids && ids + [id] + [] == ids + [id];
  }

  lemma {:induction false} OneMoreRow(flavour: Flavour, rows: seq<Message>, m: Message)
    ensures OnlyAdded(rows, m, rows)
    ensures OnlyAdded(rows, m, AppendRows(flavour, rows, [m])) && OnlyAdded(rows, m, PrependRows(flavour, rows, [m]))
  {
  }

  lemma {:induction false} OneMoreId(flavour: Flavour, rows: seq<Message>, m: Message)
    requires Distinct(Ids(rows)) && m.id !in Ids(rows)
    ensures Distinct(Ids(rows + [m]))
    ensures Ids(AppendRows(flavour, rows, [m])) == AppendRows(flavour, Ids(rows), [m.id])
    ensures Ids(PrependRows(flavour, rows, [m])) == PrependRows(flavour, Ids(rows), [m.id])
  {
    assert Ids([m]) == [m.id];
    DistinctConcat(rows, [m]);
    IdsConcat(rows, [m]);
    IdsConcat([m], rows);
  }

  lemma {:induction false} InsertOneId(rows: seq<Message>, i: nat, m: Message)
    requires i <= |rows|
    ensures Ids(rows[..i] + [m] + rows[i..]) == Ids(rows)[..i] + [m.id] + Ids(rows)[i..]
  {
  }

  lemma {:induction false} IndexRename(rows: seq<Message>, index: map<int, int>, pos: nat, m: Message,
        index': map<int, int>)
    requires Indexed(rows, index) && pos < |rows| && (m.id == rows[pos].id || m.id !in Ids(rows))
    requires index' == (map id | id in index && id != rows[pos].id :: index[id])[m.id := pos]
    ensures Indexed(rows[pos := m], index')
  {
    var rows' := rows[pos := m];
    var ids, ids' := Ids(rows), Ids(rows');
    assert ids' == ids[pos := m.id];
    forall k | 0 <= k < |rows| && k != pos ensures ids[k] != ids[pos] && ids[k] in ids {}
    forall id ensures id in index' <==> id in ids' {
      if id in ids && id != ids[pos] {
        var k :| 0 <= k < |ids| && ids[k] == id;
        assert ids'[k] == id;
      }
      assert ids'[pos] == m.id;
    }
  }

  lemma {:induction false} IndexMoveToEnd(rows: seq<Message>, index: map<int, int>, pos: nat)
    requires Indexed(rows, index) && pos < |rows|
    ensures IndexedBelow(rows[..pos] + rows[pos + 1..] + [rows[pos]], index, pos)
  {
    var rows' := rows[..pos] + rows[pos + 1..] + [rows[pos]];
    var ids, ids' := Ids(rows), Ids(rows');
    assert ids' == ids[..pos] + ids[pos + 1..] + [ids[pos]];
    assert ids == ids[..pos] + [ids[pos]] + ids[pos + 1..];
    assert forall id :: id in ids' <==> id in ids;
    RotatedDistinct(ids, pos, ids');
    forall k | 0 <= k < pos ensures index[rows'[k].id] == k {
      assert rows'[k] == rows[k];
    }
  }

  lemma {:induction false} RotatedDistinct(ids: seq<int>, pos: nat, ids': seq<int>)
    requires pos < |ids| && Distinct(ids) && ids' == ids[..pos] + ids[pos + 1..] + [ids[pos]]
    ensures Distinct(ids')
  {
    var n := |ids| - 1;
    forall i, j | 0 <= i < j <= n ensures ids'[i] != ids'[j] {
      assert ids'[i] == if i < pos then ids[i] else ids[i + 1];
      assert ids'[j] == if j == n then ids[pos] else if j < pos then ids[j] else ids[j + 1];
    }
  }

  /** Entering the next row of a list whose rows before it are all there is in the index. */
  lemma {:induction false} IndexNext(rows: seq<Message>, index: map<int, int>, i: nat)
    requires i < |rows| && Distinct(Ids(rows)) && IndexedBelow(rows[..i], index, i)
    ensures IndexedBelow(rows[..i + 1], index[rows[i].id := i], i + 1)
  {
    var known := rows[..i];
    forall k | 0 <= k < i ensures Ids(known)[k] != rows[i].id {
      assert Ids(known)[k] == Ids(rows)[k] && Ids(rows)[i] == rows[i].id;
    }
    IndexInsert(known, index, i, rows[i]);
    assert known[..i] + [rows[i]] + known[i..] == rows[..i + 1];
  }

  /** The new rows' ids are not loaded, so old and new rows together have distinct ids. */
  lemma {:induction false} NewRows(rows: seq<Message>, received: seq<Message>, chatId: int, added: seq<Message>)
    requires Distinct(Ids(rows)) && Distinct(Ids(added))
    requires forall x :: x in added ==> x in NewOnes(received, chatId, Elements(Ids(rows)))
    ensures Distinct(Ids(rows + added)) && forall k :: 0 <= k < |added| ==> added[k].Unmarked()
  {
    forall k | 0 <= k < |added| ensures added[k].id !in Ids(rows) && added[k].Unmarked() {
      assert added[k] in added;
      NewOnesMember(received, chatId, Elements(Ids(rows)), added[k]);
    }
    DistinctConcat(rows, added);
  }

  lemma {:induction false} DistinctConcat(a: seq<Message>, b: seq<Message>)
    requires Distinct(Ids(a)) && Distinct(Ids(b)) && forall k :: 0 <= k < |b| ==> b[k].id !in Ids(a)
    ensures Distinct(Ids(a + b))
  {
    IdsConcat(a, b);
    forall i, j | 0 <= i < j < |a + b| ensures Ids(a + b)[i] != Ids(a + b)[j] {
      if i < |a| <= j {
        assert Ids(a)[i] in Ids(a);
        assert Ids(a + b)[j] == b[j - |a|].id;
      }
    }
  }

  lemma {:induction false} InsertedRows(flavour: Flavour, rows: seq<Message>, added: seq<Message>, rows': seq<Message>)
    requires added != [] && rows' == InsertRows(flavour, rows, added)
    ensures forall k :: 0 <= k < |added| ==> HasRow(rows', added[k].id, added[k].albumId)
  {
    forall k | 0 <= k < |added| ensures HasRow(rows', added[k].id, added[k].albumId) {
      assert HasRow(added, added[k].id, added[k].albumId);
      HasRowConcat(rows, added, added[k].id, added[k].albumId);
      HasRowConcat(added, rows, added[k].id, added[k].albumId);
    }
  }

  /** Right after the insertion the table is exact but for the new rows. */
  lemma {:induction false} InsertedPending(flavour: Flavour, rows: seq<Message>, added: seq<Message>,
        rows': seq<Message>, table: map<int, seq<int>>)
    requires added != [] && rows' == InsertRows(flavour, rows, added)
    requires Distinct(Ids(rows + added)) && forall k :: 0 <= k < |added| ==> added[k].Unmarked()
    requires AlbumsExact(rows, table)
    ensures AlbumsExceptFor(rows', table, IdSet(added))
  {
    forall a, id | a != 0
      ensures id in Entry(table, a) <==> HasRow(rows', id, a) && id !in IdSet(added)
    {
      HasRowConcat(rows, added, id, a);
      HasRowConcat(added, rows, id, a);
      if HasRow(rows, id, a) {
        OldRowNotAdded(rows, added, id, a);
      }
      if HasRow(added, id, a) {
        var k :| 0 <= k < |added| && added[k].id == id && added[k].albumId == a;
        assert Ids(added)[k] == id;
      }
    }
    forall k | 0 <= k < |rows'|
      ensures if rows'[k].id in IdSet(added) then rows'[k].Unmarked()
              else MarkExact(rows'[k], Entry(table, rows'[k].albumId))
    {
      if rows'[k] in added {
        var j :| 0 <= j < |added| && added[j] == rows'[k];
        assert Ids(added)[j] == rows'[k].id;
      } else {
        assert rows'[k] in rows;
        var j :| 0 <= j < |rows| && rows[j] == rows'[k];
        assert HasRow(rows, rows[j].id, rows[j].albumId);
        OldRowNotAdded(rows, added, rows[j].id, rows[j].albumId);
      }
    }
  }

  lemma {:induction false} OldRowNotAdded(rows: seq<Message>, added: seq<Message>, id: int, a: int)
    requires Distinct(Ids(rows + added)) && HasRow(rows, id, a)
    ensures id !in IdSet(added)
  {
    var k :| 0 <= k < |rows| && rows[k].id == id && rows[k].albumId == a;
    var ids := Ids(rows + added);
    assert ids[k] == id;
    forall j | 0 <= j < |added| ensures Ids(added)[j] != id {
      assert ids[|rows| + j] == added[j].id;
    }
  }

  /** The order in which a batch is looked up. */
  function LookupOrder(flavour: Flavour, batch: seq<int>): seq<int>
  {
    if flavour == Readable then Reverse(batch) else batch
  }

  lemma {:induction false} LookupOrderSameMembers(flavour: Flavour, list: seq<int>, batch: seq<int>)
    ensures Without(list, LookupOrder(flavour, batch)) == Without(list, batch)
    ensures MarkerClear(list, LookupOrder(flavour, batch)) == MarkerClear(list, batch)
  {
    var order := LookupOrder(flavour, batch);
    forall x ensures x in order <==> x in batch {
      if x in batch {
        var k :| 0 <= k < |batch| && batch[k] == x;
        assert flavour == Readable ==> order[|batch| - 1 - k] == x;
      }
    }
    WithoutSameMembers(list, order, batch);
  }

  ghost function IdSet(rows: seq<Message>): set<int>
  {
    Elements(Ids(rows))
  }

  lemma {:induction false} IdSetStep(rows: seq<Message>, i: nat)
    requires i < |rows| && Distinct(Ids(rows))
    ensures rows[i].id in IdSet(rows[i..])
    ensures IdSet(rows[i + 1..]) == IdSet(rows[i..]) - {rows[i].id}
  {
    assert rows[i..] == [rows[i]] + rows[i + 1..];
    IdsConcat([rows[i]], rows[i + 1..]);
    var rest := Ids(rows[i + 1..]);
    forall k | 0 <= k < |rest| ensures rest[k] != rows[i].id {
      assert rest[k] == Ids(rows)[i + 1 + k];
      assert Ids(rows)[i] == rows[i].id;
    }
    assert Ids([rows[i]]) == [rows[i].id];
  }

  lemma {:induction false} HasRowOfBare(a: seq<Message>, b: seq<Message>, id: int, albumId: int)
    requires Bare(a) == Bare(b)
    ensures HasRow(a, id, albumId) <==> HasRow(b, id, albumId)
  {
    forall k | 0 <= k < |a| ensures a[k].id == b[k].id && a[k].albumId == b[k].albumId {
      assert Bare(a)[k] == Bare(b)[k];
    }
  }

  lemma {:induction false} CutOfMaps(rows: seq<Message>, first: int, last: int)
    requires 0 <= first <= last < |rows|
    ensures Ids(CutRange(rows, first, last)) == CutRange(Ids(rows), first, last)
    ensures Bare(CutRange(rows, first, last)) == CutRange(Bare(rows), first, last)
  {
    var head, tail := rows[..first], rows[last + 1..];
    IdsConcat(head, tail);
    BareConcat(head, tail);
    assert Ids(rows)[..first] == Ids(head) && Ids(rows)[last + 1..] == Ids(tail);
    assert Bare(rows)[..first] == Bare(head) && Bare(rows)[last + 1..] == Bare(tail);
  }

  lemma {:induction false} BareConcat(a: seq<Message>, b: seq<Message>)
    ensures Bare(a + b) == Bare(a) + Bare(b)
  {
  }

  /** The albums in `rescan` are in the table, and those of the rows from `from` up to `to` are among them if they
      are. */
  ghost predicate AlbumsOf(rows: seq<Message>, table: map<int, seq<int>>, from: int, to: int, rescan: seq<int>)
    requires 0 <= from && to <= |rows|
  {
    && (forall k :: 0 <= k < |rescan| ==> rescan[k] != 0 && rescan[k] in table)
    && (forall k :: from <= k < to && rows[k].albumId != 0 && rows[k].albumId in table ==> rows[k].albumId in rescan)
  }

  lemma {:induction false} AlbumsOfNext(rows: seq<Message>, table: map<int, seq<int>>, from: int, i: int,
        rescan: seq<int>)
    requires 0 <= from <= i < |rows| && AlbumsOf(rows, table, from, i, rescan)
    ensures var albumId := rows[i].albumId;
            AlbumsOf(rows, table, from, i + 1,
                     if albumId != 0 && albumId in table then rescan + [albumId] else rescan)
  {
  }

  lemma {:induction false} IdsNext(rows: seq<Message>, from: int, i: int)
    requires 0 <= from <= i < |rows|
    ensures Elements(Ids(rows[from..i + 1])) == Elements(Ids(rows[from..i])) + {rows[i].id}
  {
    assert rows[from..i + 1] == rows[from..i] + [rows[i]];
    IdsConcat(rows[from..i], [rows[i]]);
    assert Ids([rows[i]]) == [rows[i].id];
  }

  lemma {:induction false} DirtyAlbums(rows: seq<Message>, table: map<int, seq<int>>, from: int, to: int,
        rescan: seq<int>)
    requires 0 <= from <= to <= |rows| && AlbumsExact(rows, table) && AlbumsOf(rows, table, from, to, rescan)
    ensures var gone := rows[from..to]; forall k :: 0 <= k < |gone| && gone[k].albumId != 0 ==>
              gone[k].albumId in Elements(rescan)
  {
    var gone := rows[from..to];
    forall k | 0 <= k < |gone| && gone[k].albumId != 0 ensures gone[k].albumId in rescan {
      assert gone[k] == rows[from + k];
      assert MarkExact(gone[k], Entry(table, gone[k].albumId));
    }
  }

  lemma {:induction false} DirtyShrinks(rows: seq<Message>, table: map<int, seq<int>>, dirty: set<int>, more: set<int>)
    requires AlbumsToRescan(rows, table, dirty) && dirty <= more
    ensures AlbumsToRescan(rows, table, more)
  {
  }

  function MarkedBy(m: Message, entry: seq<int>, upTo: nat): Message
    requires upTo <= |entry|
  {
    if m.id in entry[..upTo] then Marked(m, entry) else m
  }

  lemma {:induction false} MarkedByNext(rows: seq<Message>, entry: seq<int>, i: nat)
    requires i < |entry| && Distinct(entry) && Distinct(Ids(rows))
    ensures forall k :: 0 <= k < |rows| && rows[k].id != entry[i] ==>
              MarkedBy(rows[k], entry, i + 1) == MarkedBy(rows[k], entry, i)
    ensures forall k :: 0 <= k < |rows| && rows[k].id == entry[i] ==>
              MarkedBy(rows[k], entry, i) == rows[k] && MarkedBy(rows[k], entry, i + 1) == Marked(rows[k], entry)
  {
    assert entry[..i + 1] == entry[..i] + [entry[i]];
    assert entry[i] !in entry[..i];
  }

  lemma {:induction false} RefreshedDistinct(entry: seq<int>, index: map<int, int>, checkDeleted: bool)
    requires Distinct(entry)
    ensures Distinct(SortIds(entry)) && Distinct(Refreshed(entry, index, checkDeleted))
  {
    SortFacts(entry);
    StillLoadedFacts(SortIds(entry), index);
  }

  /** The inverted model swaps what "append" and "prepend" do to the list. */
  function AppendRows<T>(flavour: Flavour, rows: seq<T>, added: seq<T>): seq<T>
  {
    if flavour == Readable then rows + added else added + rows
  }

  function PrependRows<T>(flavour: Flavour, rows: seq<T>, added: seq<T>): seq<T>
  {
    if flavour == Readable then added + rows else rows + added
  }

  function LastKnownId(rows: seq<Message>): int
  {
    if rows == [] then -1
    else if !rows[|rows| - 1].isSponsored then rows[|rows| - 1].id
    else LastKnownId(rows[..|rows| - 1])
  }

  /** The id of the last row that is not sponsored, if there is one. */
  lemma {:induction false} LastKnownExact(rows: seq<Message>, k: nat)
    requires k < |rows| && !rows[k].isSponsored && forall j :: k < j < |rows| ==> rows[j].isSponsored
    ensures LastKnownId(rows) == rows[k].id
  {
    if k == |rows| - 1 {
    } else {
      LastKnownExact(rows[..|rows| - 1], k);
    }
  }

  lemma {:induction false} AllSponsored(rows: seq<Message>)
    requires forall j :: 0 <= j < |rows| ==> rows[j].isSponsored
    ensures LastKnownId(rows) == -1
  {
    if rows == [] {
    } else {
      AllSponsored(rows[..|rows| - 1]);
    }
  }

  function InsertRows(flavour: Flavour, rows: seq<Message>, added: seq<Message>): seq<Message>
    requires added != []
  {
    if rows == [] || LastKnownId(rows) < added[0].id then AppendRows(flavour, rows, added)
    else PrependRows(flavour, rows, added)
  }

  /** One pass of the loop that inserts a batch row by row. */
  lemma {:induction false} InsertNext(before: seq<Message>, newMessages: seq<Message>, at: nat, i: nat,
        index: map<int, int>)
    requires at <= |before| && i < |newMessages| && Distinct(Ids(before + newMessages))
    requires IndexedBelow(before[..at] + newMessages[..i] + before[at..], index, at + i)
    ensures var rows, m := before[..at] + newMessages[..i] + before[at..], newMessages[i];
            var next := before[..at] + newMessages[..i + 1] + before[at..];
            && rows[..at + i] + [m] + rows[at + i..] == next
            && IndexedBelow(next, index[m.id := at + i], at + i + 1)
  {
    var rows, m := before[..at] + newMessages[..i] + before[at..], newMessages[i];
    StillNew(before, newMessages, at, i);
    IndexInsert(rows, index, at + i, m);
    assert newMessages[..i + 1] == newMessages[..i] + [m];
    assert rows[..at + i] == before[..at] + newMessages[..i] && rows[at + i..] == before[at..];
  }

  lemma {:induction false} PrependNext(before: seq<Message>, newMessages: seq<Message>, i: nat, index: map<int, int>)
    requires i < |newMessages| && Distinct(Ids(before + newMessages))
    requires IndexedBelow(newMessages[..i] + before, index, i)
    ensures var rows, m := newMessages[..i] + before, newMessages[i];
            && rows[..i] + [m] + rows[i..] == newMessages[..i + 1] + before
            && IndexedBelow(newMessages[..i + 1] + before, index[m.id := i], i + 1)
  {
    assert before[..0] + newMessages[..i] + before[0..] == newMessages[..i] + before;
    InsertNext(before, newMessages, 0, i, index);
    assert before[..0] + newMessages[..i + 1] + before[0..] == newMessages[..i + 1] + before;
  }

  lemma {:induction false} StillNew(before: seq<Message>, newMessages: seq<Message>, at: nat, i: nat)
    requires at <= |before| && i < |newMessages| && Distinct(Ids(before + newMessages))
    ensures newMessages[i].id !in Ids(before[..at] + newMessages[..i] + before[at..])
  {
    var rows := before[..at] + newMessages[..i] + before[at..];
    var ids := Ids(before + newMessages);
    assert ids[|before| + i] == newMessages[i].id;
    forall k | 0 <= k < |rows| ensures Ids(rows)[k] != newMessages[i].id {
      var k' := if k < at then k else if k < at + i then |before| + (k - at) else k - i;
      assert rows[k] == (before + newMessages)[k'];
      assert Ids(rows)[k] == ids[k'] && k' != |before| + i;
    }
  }
}
