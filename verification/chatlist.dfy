/** The sorted chat list and its index (src/chatlistmodel.cpp:12-22, 205-249, 305-352). */
module ChatList {
  import opened ListMoves

  datatype Place = Place(order: int, isPinned: bool)
  datatype Chat = Chat(id: int, place: Place)

  /** What the chat list is told. */
  datatype Event = Added(id: int, place: Place) | Removed(id: int) | PositionUpdated(id: int, place: Place)

  /** Negative if the chat belongs above the other one. */
  function CompareTo(chat: Chat, other: Chat): int {
    if chat.place.order == other.place.order then
      if chat.id < other.id then 1 else -1
    else
      if chat.place.order < other.place.order then 1 else -1
  }

  /** By order, then by chat id, both descending. */
  predicate Above(chat: Chat, other: Chat) {
    chat.place.order > other.place.order || (chat.place.order == other.place.order && chat.id > other.id)
  }

  ghost predicate InOrder(chats: seq<Chat>) {
    forall i, j {:trigger Above(chats[i], chats[j])} :: 0 <= i < j < |chats| ==> Above(chats[i], chats[j])
  }

  ghost predicate OnePlaceEach(chats: seq<Chat>) {
    forall i, j :: 0 <= i < j < |chats| ==> chats[i].id != chats[j].id
  }

  ghost predicate HasChat(chats: seq<Chat>, id: int) {
    exists i :: 0 <= i < |chats| && chats[i].id == id
  }

  /** The chats of a list and their places, whatever the order. */
  ghost predicate Holds(chats: seq<Chat>, places: map<int, Place>) {
    && OnePlaceEach(chats)
    && (forall i :: 0 <= i < |chats| ==> chats[i].id in places && chats[i].place == places[chats[i].id])
    && (forall id {:trigger HasChat(chats, id)} :: id in places ==> HasChat(chats, id))
  }

  /** The list is what sorting the places from scratch gives; SortIsUnique says that there is only one such list. */
  ghost predicate SortOf(chats: seq<Chat>, places: map<int, Place>) {
    InOrder(chats) && Holds(chats, places)
  }

  lemma {:induction false} SortIsUnique(a: seq<Chat>, b: seq<Chat>, places: map<int, Place>)
    requires SortOf(a, places) && SortOf(b, places)
    ensures a == b
    decreases |a|
  {
    if a == [] || b == [] {
      HeadIsHeld(a, b, places);
      HeadIsHeld(b, a, places);
    } else {
      HeadIsHeld(a, b, places);
      HeadIsHeld(b, a, places);
      var i :| 0 <= i < |b| && b[i].id == a[0].id;
      var j :| 0 <= j < |a| && a[j].id == b[0].id;
      assert b[i] == a[0] && a[j] == b[0];
      TopIsAbove(b, i);
      TopIsAbove(a, j);
      TailHolds(a, places);
      TailHolds(b, places);
      SortIsUnique(a[1..], b[1..], places - {a[0].id});
    }
  }

  /** One chat stands above another exactly if its order is greater, or equal and its id greater; pins decide
      nothing. */
  lemma {:induction false} RowsByOrder(chats: seq<Chat>, places: map<int, Place>, i: nat, j: nat)
    requires SortOf(chats, places) && i < |chats| && j < |chats|
    ensures chats[i].id in places && chats[j].id in places
    ensures var a, b := places[chats[i].id].order, places[chats[j].id].order;
            i < j <==> a > b || (a == b && chats[i].id > chats[j].id)
  {
    if i < j {
      assert Above(chats[i], chats[j]);
    } else if j < i {
      assert Above(chats[j], chats[i]);
    }
  }

  lemma {:induction false} TopIsAbove(chats: seq<Chat>, i: nat)
    requires i < |chats| && InOrder(chats)
    ensures chats[i] == chats[0] || Above(chats[0], chats[i])
  {
  }

  lemma {:induction false} HeadIsHeld(a: seq<Chat>, b: seq<Chat>, places: map<int, Place>)
    requires Holds(a, places) && Holds(b, places)
    ensures a != [] ==> HasChat(b, a[0].id)
  {
    assert a != [] ==> a[0].id in places;
  }

  lemma {:induction false} TailHolds(chats: seq<Chat>, places: map<int, Place>)
    requires SortOf(chats, places) && chats != []
    ensures SortOf(chats[1..], places - {chats[0].id})
  {
    var rest := chats[1..];
    assert forall i :: 0 <= i < |rest| ==> rest[i] == chats[i + 1];
    forall id | id in places - {chats[0].id} ensures HasChat(rest, id) {
      assert HasChat(chats, id);
      var i :| 0 <= i < |chats| && chats[i].id == id;
      assert rest[i - 1].id == id;
    }
  }

  /** The places after an event; events about unknown chats change nothing. */
  function Apply(places: map<int, Place>, event: Event): map<int, Place> {
    match event
    case Added(id, place) => places[id := place]
    case Removed(id) => places - {id}
    case PositionUpdated(id, place) => if id in places then places[id := place] else places
  }

  /** TDLib adds only chats that are not in the list. */
  predicate Possible(places: map<int, Place>, event: Event) {
    event.Added? ==> event.id !in places
  }

  function ApplyAll(places: map<int, Place>, events: seq<Event>): map<int, Place> {
    if events == [] then places
    else Apply(ApplyAll(places, events[..|events| - 1]), events[|events| - 1])
  }

  predicate PossibleRun(places: map<int, Place>, events: seq<Event>) {
    forall k :: 0 <= k < |events| ==> Possible(ApplyAll(places, events[..k]), events[k])
  }

  /** The events about one chat, in their order. */
  function About(events: seq<Event>, id: int): seq<Event> {
    if events == [] then []
    else
      var last := events[|events| - 1];
      About(events[..|events| - 1], id) + (if last.id == id then [last] else [])
  }

  /** The two maps place a chat alike, if at all. */
  predicate AgreeOn(a: map<int, Place>, b: map<int, Place>, id: int) {
    (id in a <==> id in b) && (id in a ==> a[id] == b[id])
  }

  lemma {:induction false} AgreeEverywhere(a: map<int, Place>, b: map<int, Place>)
    requires forall id :: AgreeOn(a, b, id)
    ensures a == b
  {
    forall id ensures id in a.Keys <==> id in b.Keys {
      assert AgreeOn(a, b, id);
    }
    forall id | id in a ensures a[id] == b[id] {
      assert AgreeOn(a, b, id);
    }
  }

  /** The place of a chat depends on its own events alone. */
  lemma {:induction false} OnlyItsOwnEvents(places: map<int, Place>, events: seq<Event>, id: int)
    ensures AgreeOn(ApplyAll(places, events), ApplyAll(places, About(events, id)), id)
    decreases |events|
  {
    if events == [] {
    } else {
      var front, last := events[..|events| - 1], events[|events| - 1];
      OnlyItsOwnEvents(places, front, id);
      if last.id == id {
        assert (About(front, id) + [last])[..|About(front, id)|] == About(front, id);
      } else {
        assert About(events, id) == About(front, id);
      }
    }
  }

  /** How the events of different chats interleave does not matter: two runs that tell each chat the same events in the
      same order leave the same list. */
  lemma {:induction false} Interleaving(places: map<int, Place>, events: seq<Event>, others: seq<Event>,
        a: seq<Chat>, b: seq<Chat>)
    requires forall id :: About(events, id) == About(others, id)
    requires SortOf(a, ApplyAll(places, events)) && SortOf(b, ApplyAll(places, others))
    ensures a == b
  {
    var l, r := ApplyAll(places, events), ApplyAll(places, others);
    forall id ensures AgreeOn(l, r, id) {
      OnlyItsOwnEvents(places, events, id);
      OnlyItsOwnEvents(places, others, id);
    }
    AgreeEverywhere(l, r);
    SortIsUnique(a, b, l);
  }

  /** The index has exactly the chats of the list, each at its row. */
  ghost predicate Indexed(index: map<int, nat>, chats: seq<Chat>, places: map<int, Place>) {
    && index.Keys == places.Keys
    && forall i :: 0 <= i < |chats| ==> chats[i].id in index && index[chats[i].id] == i
  }

  /** The index is the inverse of the list, in both directions. */
  lemma {:induction false} IndexIsInverse(index: map<int, nat>, chats: seq<Chat>, places: map<int, Place>)
    requires Holds(chats, places) && Indexed(index, chats, places)
    ensures forall id :: id in index ==> index[id] < |chats| && chats[index[id]].id == id
  {
    forall id | id in index ensures index[id] < |chats| && chats[index[id]].id == id {
      assert HasChat(chats, id);
    }
  }

  /** Putting a chat where it belongs keeps the order. */
  lemma {:induction false} InsertSorts(chats: seq<Chat>, at: nat, chat: Chat)
    requires at <= |chats| && InOrder(chats)
    requires forall k :: 0 <= k < at ==> Above(chats[k], chat)
    requires forall k :: at <= k < |chats| ==> Above(chat, chats[k])
    ensures InOrder(Insert(chats, at, chat))
  {
    var all := Insert(chats, at, chat);
    assert forall k :: 0 <= k < |all| ==> all[k] == if k < at then chats[k] else if k == at then chat else chats[k - 1];
  }

  lemma {:induction false} InsertHolds(chats: seq<Chat>, at: nat, chat: Chat, places: map<int, Place>)
    requires at <= |chats| && Holds(chats, places) && chat.id !in places
    ensures Holds(Insert(chats, at, chat), places[chat.id := chat.place])
  {
    var all := Insert(chats, at, chat);
    assert forall k :: 0 <= k < |all| ==> all[k] == if k < at then chats[k] else if k == at then chat else chats[k - 1];
    forall id | id in places[chat.id := chat.place] ensures HasChat(all, id) {
      if id == chat.id {
        assert all[at].id == id;
      } else {
        assert HasChat(chats, id);
        var i :| 0 <= i < |chats| && chats[i].id == id;
        assert all[if i < at then i else i + 1].id == id;
      }
    }
  }

  lemma {:induction false} TakeSorts(chats: seq<Chat>, at: nat, places: map<int, Place>)
    requires at < |chats| && Holds(chats, places)
    requires forall i, j :: 0 <= i < j < |chats| && i != at && j != at ==> Above(chats[i], chats[j])
    ensures SortOf(Take(chats, at), places - {chats[at].id})
  {
    var rest := Take(chats, at);
    assert forall k :: 0 <= k < |rest| ==> rest[k] == if k < at then chats[k] else chats[k + 1];
    forall id | id in places - {chats[at].id} ensures HasChat(rest, id) {
      assert HasChat(chats, id);
      var i :| 0 <= i < |chats| && chats[i].id == id;
      assert rest[if i < at then i else i - 1].id == id;
    }
  }

  /** Giving one chat another place keeps everything but its own position in the order. */
  lemma {:induction false} Replaced(chats: seq<Chat>, at: nat, place: Place, places: map<int, Place>)
    requires at < |chats| && SortOf(chats, places)
    ensures var id := chats[at].id;
            var after := chats[at := Chat(id, place)];
            && Holds(after, places[id := place]) && InOrderBut(after, at)
            && (place.order == chats[at].place.order ==> InOrder(after))
  {
    var id := chats[at].id;
    var after := chats[at := Chat(id, place)];
    forall i, j | 0 <= i < j < |chats| && ((i != at && j != at) || place.order == chats[at].place.order)
      ensures Above(after[i], after[j])
    {
      assert Above(chats[i], chats[j]);
    }
    forall other | other in places[id := place] ensures HasChat(after, other) {
      assert HasChat(chats, other);
      var i :| 0 <= i < |chats| && chats[i].id == other;
      assert after[i].id == other;
    }
  }

  /** Every chat from `from` up to, but not including, `to` is above the given one. */
  ghost predicate AllAbove(chats: seq<Chat>, from: nat, to: nat, chat: Chat) {
    forall k :: from <= k < to <= |chats| ==> Above(chats[k], chat)
  }

  ghost predicate AllBelow(chats: seq<Chat>, from: nat, to: nat, chat: Chat) {
    forall k :: from <= k < to <= |chats| ==> Above(chat, chats[k])
  }

  /** The list is sorted, apart from the chat at one row. */
  ghost predicate InOrderBut(chats: seq<Chat>, at: nat) {
    forall i, j {:trigger Above(chats[i], chats[j])} :: 0 <= i < j < |chats| && i != at && j != at ==>
      Above(chats[i], chats[j])
  }

  /** The chat went up past the rows from `to` on, and no further. */
  lemma {:induction false} BubbledUp(chats: seq<Chat>, from: nat, to: nat)
    requires to < from < |chats| && OnePlaceEach(chats) && InOrderBut(chats, from)
    requires AllBelow(chats, to, from, chats[from]) && (to > 0 ==> CompareTo(chats[from], chats[to - 1]) >= 0)
    ensures AllAbove(Take(chats, from), 0, to, chats[from])
    ensures AllBelow(Take(chats, from), to, |chats| - 1, chats[from])
  {
    var chat, rest := chats[from], Take(chats, from);
    assert forall k :: 0 <= k < |rest| ==> rest[k] == if k < from then chats[k] else chats[k + 1];
    assert to > 0 ==> Above(chats[to - 1], chat);
    assert forall k :: 0 <= k < to - 1 ==> Above(chats[k], chats[to - 1]);
    assert Above(chat, chats[from - 1]);
    assert forall k :: from < k < |chats| ==> Above(chats[from - 1], chats[k]);
  }

  /** It did not go up, and went down past the rows up to `to`. */
  lemma {:induction false} BubbledDown(chats: seq<Chat>, from: nat, to: nat)
    requires from <= to < |chats| && OnePlaceEach(chats) && InOrderBut(chats, from)
    requires from > 0 ==> CompareTo(chats[from], chats[from - 1]) >= 0
    requires AllAbove(chats, from + 1, to + 1, chats[from])
    requires to < |chats| - 1 ==> CompareTo(chats[from], chats[to + 1]) <= 0
    ensures AllAbove(Take(chats, from), 0, to, chats[from])
    ensures AllBelow(Take(chats, from), to, |chats| - 1, chats[from])
  {
    var chat, rest := chats[from], Take(chats, from);
    assert forall k :: 0 <= k < |rest| ==> rest[k] == if k < from then chats[k] else chats[k + 1];
    assert from > 0 ==> Above(chats[from - 1], chat);
    assert forall k :: 0 <= k < from - 1 ==> Above(chats[k], chats[from - 1]);
    assert to < |chats| - 1 ==> Above(chat, chats[to + 1]);
    assert forall k :: to + 1 < k < |chats| ==> Above(chats[to + 1], chats[k]);
  }

  /** The rows after a move, by the rows before it. */
  lemma {:induction false} MovedRows(chats: seq<Chat>, from: nat, to: nat)
    requires from < |chats| && to < |chats|
    ensures |Move(chats, from, to)| == |chats|
    ensures forall k :: 0 <= k < |chats| ==>
              Move(chats, from, to)[k] == if k == to then chats[from]
                                          else if from <= k < to then chats[k + 1]
                                          else if to < k <= from then chats[k - 1]
                                          else chats[k]
  {
  }

  lemma {:induction false} MoveSorts(chats: seq<Chat>, from: nat, to: nat, places: map<int, Place>)
    requires from < |chats| && to < |chats| && Holds(chats, places) && InOrderBut(chats, from)
    requires AllAbove(Take(chats, from), 0, to, chats[from])
    requires AllBelow(Take(chats, from), to, |chats| - 1, chats[from])
    ensures SortOf(Move(chats, from, to), places)
  {
    var chat := chats[from];
    TakeSorts(chats, from, places);
    InsertSorts(Take(chats, from), to, chat);
    InsertHolds(Take(chats, from), to, chat, places - {chat.id});
    assert (places - {chat.id})[chat.id := chat.place] == places;
  }

  class ChatListModel {
    var chatList: seq<Chat>
    var chatIndexMap: map<int, nat>
    /** The chats and their places, as told so far. */
    ghost var places: map<int, Place>

    ghost predicate Valid()
      reads this
    {
      SortOf(chatList, places) && Indexed(chatIndexMap, chatList, places)
    }

    constructor ()
      ensures Valid() && places == map[]
    {
      chatList, chatIndexMap, places := [], map[], map[];
    }

    /** Rewrites the index of the rows from `from` up to, but not including, `to`. */
    method UpdateDamagedPart(from: nat, to: nat)
      requires from <= to <= |chatList| && OnePlaceEach(chatList)
      requires forall k :: 0 <= k < |chatList| ==> chatList[k].id in chatIndexMap
      modifies `chatIndexMap
      ensures chatIndexMap.Keys == old(chatIndexMap.Keys)
      ensures forall k :: 0 <= k < |chatList| ==>
                chatIndexMap[chatList[k].id] == if from <= k < to then k else old(chatIndexMap)[chatList[k].id]
    {
      for i := from to to
        invariant chatIndexMap.Keys == old(chatIndexMap.Keys)
        invariant forall k :: 0 <= k < |chatList| ==>
                    chatIndexMap[chatList[k].id] == if from <= k < i then k else old(chatIndexMap)[chatList[k].id]
      {
        chatIndexMap := chatIndexMap[chatList[i].id := i];
      }
    }

    method HandleChatAddedToList(id: int, place: Place)
      requires Valid() && id !in places
      modifies this
      ensures Valid() && places == Apply(old(places), Added(id, place))
    {
      var chat := Chat(id, place);
      var n := |chatList|;
      var pos := 0;
      while pos < n && CompareTo(chat, chatList[pos]) >= 0
        invariant 0 <= pos <= n
        invariant AllAbove(chatList, 0, pos, chat)
      {
        pos := pos + 1;
      }
      assert AllBelow(chatList, pos, n, chat) by {
        assert forall k :: pos < k < n ==> Above(chatList[pos], chatList[k]);
      }
      InsertSorts(chatList, pos, chat);
      InsertHolds(chatList, pos, chat, places);
      chatList := Insert(chatList, pos, chat);
      chatIndexMap := chatIndexMap[id := pos];
      places := places[id := place];
      UpdateDamagedPart(pos + 1, n + 1);
    }

    method HandleChatRemovedFromList(id: int)
      requires Valid()
      modifies this
      ensures Valid() && places == Apply(old(places), Removed(id))
    {
      if id in chatIndexMap {
        IndexIsInverse(chatIndexMap, chatList, places);
        var i := chatIndexMap[id];
        TakeSorts(chatList, i, places);
        chatList := Take(chatList, i);
        chatIndexMap := chatIndexMap - {id};
        places := places - {id};
        UpdateDamagedPart(i, |chatList|);
      } else {
        places := places - {id};
      }
    }

    /** Where the chat at a row belongs: bubbles up, and if it does not move at all, down. */
    method FindRow(chatIndex: nat) returns (newIndex: nat)
      requires chatIndex < |chatList| && OnePlaceEach(chatList) && InOrderBut(chatList, chatIndex)
      ensures newIndex < |chatList|
      ensures AllAbove(Take(chatList, chatIndex), 0, newIndex, chatList[chatIndex])
      ensures AllBelow(Take(chatList, chatIndex), newIndex, |chatList| - 1, chatList[chatIndex])
    {
      var chat := chatList[chatIndex];
      var n := |chatList|;
      newIndex := chatIndex;
      while newIndex > 0 && CompareTo(chat, chatList[newIndex - 1]) < 0
        invariant 0 <= newIndex <= chatIndex
        invariant AllBelow(chatList, newIndex, chatIndex, chat)
      {
        newIndex := newIndex - 1;
      }
      if newIndex == chatIndex {
        while newIndex < n - 1 && CompareTo(chat, chatList[newIndex + 1]) > 0
          invariant chatIndex <= newIndex <= n - 1
          invariant AllAbove(chatList, chatIndex + 1, newIndex + 1, chat)
        {
          newIndex := newIndex + 1;
        }
        BubbledDown(chatList, chatIndex, newIndex);
      } else {
        BubbledUp(chatList, chatIndex, newIndex);
      }
    }

    method UpdateChatOrder(chatIndex: nat) returns (newIndex: nat)
      requires chatIndex < |chatList| && InOrderBut(chatList, chatIndex)
      requires Holds(chatList, places) && Indexed(chatIndexMap, chatList, places)
      modifies `chatList, `chatIndexMap
      ensures Valid() && newIndex < |chatList| == |old(chatList)|
      ensures chatList[newIndex] == old(chatList)[chatIndex]
    {
      newIndex := FindRow(chatIndex);
      MoveSorts(chatList, chatIndex, newIndex, places);
      if newIndex != chatIndex {
        MoveRow(chatIndex, newIndex);
      } else {
        assert chatList == Move(chatList, chatIndex, newIndex);
      }
    }

    /** Moves a chat and repairs the index of the rows passed; the row it went to has been entered already. */
    method MoveRow(from: nat, to: nat)
      requires from < |chatList| && to < |chatList| && from != to
      requires OnePlaceEach(chatList) && Indexed(chatIndexMap, chatList, places)
      requires OnePlaceEach(Move(chatList, from, to))
      modifies `chatList, `chatIndexMap
      ensures chatList == Move(old(chatList), from, to) && chatList[to] == old(chatList)[from]
      ensures Indexed(chatIndexMap, chatList, places)
    {
      ghost var before, index := chatList, chatIndexMap;
      var chat := chatList[from];
      chatList := Move(chatList, from, to);
      MovedRows(before, from, to);
      chatIndexMap := chatIndexMap[chat.id := to];
      var last := if from < to then to else from;
      if to < from {
        UpdateDamagedPart(to + 1, last + 1);
      } else {
        UpdateDamagedPart(from, last);
      }
    }

    method UpdateChatIsPinned(chatIndex: nat, isPinned: bool)
      requires Valid() && chatIndex < |chatList|
      modifies `chatList, `places
      ensures Valid()
      ensures var chat := old(chatList)[chatIndex];
              places == old(places)[chat.id := chat.place.(isPinned := isPinned)]
    {
      var chat := chatList[chatIndex];
      places := places[chat.id := chat.place.(isPinned := isPinned)];
      Replaced(chatList, chatIndex, chat.place.(isPinned := isPinned), old(places));
      chatList := chatList[chatIndex := chat.(place := chat.place.(isPinned := isPinned))];
    }

    /** Changes the order of one chat and leaves it where it is. */
    method SetOrder(chatIndex: nat, order: int)
      requires Valid() && chatIndex < |chatList|
      modifies `chatList, `places
      ensures InOrderBut(chatList, chatIndex) && Holds(chatList, places) && Indexed(chatIndexMap, chatList, places)
      ensures var chat := old(chatList)[chatIndex];
              var moved := Chat(chat.id, chat.place.(order := order));
              chatList == old(chatList)[chatIndex := moved] && places == old(places)[chat.id := moved.place]
    {
      var chat := chatList[chatIndex];
      var moved := chat.place.(order := order);
      Replaced(chatList, chatIndex, moved, places);
      chatList := chatList[chatIndex := Chat(chat.id, moved)];
      places := places[chat.id := moved];
    }

    method HandleChatPositionUpdated(id: int, place: Place)
      requires Valid()
      modifies this
      ensures Valid() && places == Apply(old(places), PositionUpdated(id, place))
    {
      if id in chatIndexMap {
        IndexIsInverse(chatIndexMap, chatList, places);
        var chatIndex := chatIndexMap[id];
        assert chatList[chatIndex].id == id && chatList[chatIndex].place == places[id];
        SetOrder(chatIndex, place.order);
        chatIndex := UpdateChatOrder(chatIndex);
        UpdateChatIsPinned(chatIndex, place.isPinned);
        assert places == old(places)[id := place];
      }
    }

    /** Any run of possible events leaves exactly the list that sorting the resulting places from scratch gives. */
    method Run(events: seq<Event>)
      requires Valid() && PossibleRun(places, events)
      modifies this
      ensures Valid() && places == ApplyAll(old(places), events)
    {
      for k := 0 to |events|
        invariant Valid() && places == ApplyAll(old(places), events[..k])
      {
        assert events[..k + 1][..k] == events[..k];
        assert Possible(places, events[k]);
        match events[k]
        case Added(id, place) => HandleChatAddedToList(id, place);
        case Removed(id) => HandleChatRemovedFromList(id);
        case PositionUpdated(id, place) => HandleChatPositionUpdated(id, place);
      }
      assert events[..|events|] == events;
    }
  }
}
