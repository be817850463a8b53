/** Runs of the paging protocol as the object lives through them: what callers and TDLib tell it, step by step,
    against the history the client knows. */
module JumpableRuns {
  import opened IdLists
  import opened Rows
  import opened Paging
  import opened JumpableMessagesModels
  import opened PagingRuns
  import PagingSteps

  /** What the object is told. Replies and pushed messages carry messages, not ids. */
  datatype Signal =
    | OlderWanted
    | NewerWanted
    | MessageWanted(messageId: int)
    | EndWanted(markAllAsRead: bool, lastReadOutboxMessageId: int)
    | MessagesArrived(fromUpdate: UpdateType, received: seq<Message>, totalCount: int, lastMessageId: int)
    | MessageArrived(message: Message)
    | MessagesGone(messageIds: seq<int>)
  {
    /** It brings no album. */
    ghost predicate IsAlbumless() {
      match this
      case MessagesArrived(_, received, _, _) => Albumless(received)
      case MessageArrived(message) => message.albumId == 0
      case _ => true
    }
  }

  /** The messages of the chat with the given ids, each once and in any order. */
  ghost predicate Carries(received: seq<Message>, chatId: int, ids: seq<int>)
  {
    && Distinct(Ids(received)) && NoneSponsored(received)
    && (forall k :: 0 <= k < |received| ==> received[k].chatId == chatId && received[k].id != 0)
    && (forall id :: id in Ids(received) <==> id in ids)
  }

  /** The signal is how the object hears of the event. */
  ghost predicate Tells(s: System, e: Event, signal: Signal, chatId: int)
  {
    match e
    case LoadMoreHistory => signal == OlderWanted
    case LoadMoreFuture => signal == NewerWanted
    case JumpTo(id) => signal == MessageWanted(id)
    case JumpToEnd(markAllAsRead, outbox) => signal == EndWanted(markAllAsRead, outbox)
    case Reply(j, lo, hi, totalCount) =>
      && 0 <= j < |s.inFlight| && signal.MessagesArrived? && signal.fromUpdate == s.inFlight[j].kind
      && signal.totalCount == totalCount && signal.lastMessageId == s.lastId
      && Carries(signal.received, chatId, Slice(s.history, lo, hi))
    case NewMessage(id) => signal.MessageArrived? && signal.message.id == id && !signal.message.isSponsored
    case Deleted(batch, _) => signal == MessagesGone(batch)
  }

  /** The requests a step sends. */
  ghost function SentBy(s: System, e: Event): seq<Request>
    requires e.Reply? ==> 0 <= e.j < |s.inFlight|
  {
    match e
    case LoadMoreHistory => Paging.LoadMoreHistory(s.window).sent
    case LoadMoreFuture => Paging.LoadMoreFuture(s.window).sent
    case JumpTo(id) => LoadHistoryForMessage(s.window, id).sent
    case JumpToEnd(markAllAsRead, outbox) => LoadEnd(s.window, markAllAsRead, outbox).sent
    case Reply(_, _, _, _) => Receive(s, e).sent
    case _ => []
  }

  lemma {:induction false} OutstandingAfter(s: System, e: Event)
    requires e.Reply? ==> 0 <= e.j < |s.inFlight|
    ensures forall r :: r in Apply(s, e).inFlight ==> r in s.inFlight || r in SentBy(s, e)
  {
  }

  lemma {:induction false} DistinctCount(s: seq<int>)
    requires Distinct(s)
    ensures |Elements(s)| == |s|
  {
    if s == [] {
    } else {
      DistinctCount(s[1..]);
      assert s == [s[0]] + s[1..];
      assert Elements(s) == Elements(s[1..]) + {s[0]};
    }
  }

  /** What a reply carries counts and adds as much as the stretch of the history does. */
  lemma {:induction false} CarriedCounts(s: System, e: Event, received: seq<Message>, chatId: int)
    requires e.Reply? && Carries(received, chatId, Slice(s.history, e.lo, e.hi))
    ensures |received| == |Slice(s.history, e.lo, e.hi)|
    ensures AddedIds(received, chatId, s.window.rows) == AddedBy(s, e)
  {
    SliceFacts(s.history, e.lo, e.hi);
    DistinctCount(Ids(received));
    DistinctCount(Slice(s.history, e.lo, e.hi));
    assert Elements(Ids(received)) == Elements(Slice(s.history, e.lo, e.hi));
    SliceReply(received, chatId, s.history, e.lo, e.hi, s.window.rows);
  }

  lemma {:induction false} FewerUnsponsored(rows: seq<Message>, rows': seq<Message>)
    requires NoneSponsored(rows) && forall m :: m in Bare(rows') ==> m in Bare(rows)
    ensures NoneSponsored(rows')
  {
    forall k | 0 <= k < |rows'| ensures !rows'[k].isSponsored {
      assert Bare(rows')[k] in Bare(rows);
      var i :| 0 <= i < |rows| && Bare(rows)[i] == Bare(rows')[k];
    }
  }

  /** Each signal moves the object as the step moves the protocol's window, and sends the same requests. */
  method Deliver(model: ReadableMessagesModel, ghost s: System, ghost e: Event, signal: Signal)
    requires model.Valid() && model.Snapshot() == s.window && Tells(s, e, signal, model.list.chatId)
    modifies model, model.list
    ensures model.Valid() && model.Snapshot() == Apply(s, e).window && model.sent == old(model.sent) + SentBy(s, e)
    ensures model.list.chatId == old(model.list.chatId) && (old(model.list.AlbumsOk()) ==> model.list.AlbumsOk())
    ensures old(model.list.ViewOk()) && signal.IsAlbumless() ==> model.list.ViewOk()
  {
    match signal
    case OlderWanted => model.LoadMoreHistory();
    case NewerWanted => model.LoadMoreFuture(true);
    case MessageWanted(messageId) => model.LoadHistoryForMessage(messageId);
    case EndWanted(markAllAsRead, outbox) => model.LoadEnd(markAllAsRead, outbox);
    case MessagesArrived(fromUpdate, received, totalCount, lastMessageId) =>
      CarriedCounts(s, e, received, model.list.chatId);
      model.HandleMessagesReceived(fromUpdate, received, totalCount, lastMessageId);
    case MessageArrived(message) => model.HandleNewMessageReceived(message, true);
    case MessagesGone(messageIds) =>
      ghost var rows := model.list.messages;
      model.list.HandleMessagesDeleted(model.list.chatId, messageIds);
      FewerUnsponsored(rows, model.list.messages);
  }

  ghost predicate TellsRun(s: System, events: seq<Event>, signals: seq<Signal>, chatId: int)
    requires AllowedRun(s, events)
    decreases |events|
  {
    && |events| == |signals|
    && (events == []
        || (Tells(s, events[0], signals[0], chatId)
            && TellsRun(Apply(s, events[0]), events[1..], signals[1..], chatId)))
  }

  ghost function SentInRun(s: System, events: seq<Event>): seq<Request>
    requires AllowedRun(s, events)
    decreases |events|
  {
    if events == [] then [] else SentBy(s, events[0]) + SentInRun(Apply(s, events[0]), events[1..])
  }

  /** What is still to come of a run that ends in `end`, with the requests in `all` sent by then. */
  ghost predicate Ahead(now: System, rest: seq<Event>, signals: seq<Signal>, chatId: int, sent: seq<Request>,
        end: System, all: seq<Request>)
  {
    && AllowedRun(now, rest) && TellsRun(now, rest, signals, chatId)
    && PagingRuns.Run(now, rest) == end && sent + SentInRun(now, rest) == all
    && forall r :: r in now.inFlight ==> r in sent
  }

  lemma {:induction false} AheadStep(now: System, rest: seq<Event>, signals: seq<Signal>, chatId: int,
        sent: seq<Request>, end: System, all: seq<Request>)
    requires Ahead(now, rest, signals, chatId, sent, end, all) && signals != []
    ensures rest != [] && Tells(now, rest[0], signals[0], chatId)
    ensures rest[0].Reply? ==> 0 <= rest[0].j < |now.inFlight|
    ensures Ahead(Apply(now, rest[0]), rest[1..], signals[1..], chatId, sent + SentBy(now, rest[0]), end, all)
  {
    var next := Apply(now, rest[0]);
    OutstandingAfter(now, rest[0]);
    var sentNow, sentLater := SentBy(now, rest[0]), SentInRun(next, rest[1..]);
    assert sent + (sentNow + sentLater) == (sent + sentNow) + sentLater;
  }

  lemma {:induction false} AheadEnd(now: System, rest: seq<Event>, chatId: int, sent: seq<Request>, end: System,
        all: seq<Request>)
    requires Ahead(now, rest, [], chatId, sent, end, all)
    ensures now == end && sent == all
  {
  }

  /** Over any disciplined run the object's window is the protocol's, so that its rows are a gap-free stretch of the
      history; what is outstanding has been sent; albums stay exact, and without albums so does the view. */
  method Run(model: ReadableMessagesModel, ghost s: System, ghost events: seq<Event>, signals: seq<Signal>)
    requires model.Valid() && model.Snapshot() == s.window && Inv(s)
    requires AllowedRun(s, events) && TellsRun(s, events, signals, model.list.chatId)
    requires forall r :: r in s.inFlight ==> r in model.sent
    modifies model, model.list
    ensures model.Valid() && model.Snapshot() == PagingRuns.Run(s, events).window
    ensures GapFree(PagingRuns.Run(s, events))
    ensures model.sent == old(model.sent) + SentInRun(s, events)
    ensures forall r :: r in PagingRuns.Run(s, events).inFlight ==> r in model.sent
    ensures old(model.list.AlbumsOk()) ==> model.list.AlbumsOk()
    ensures old(model.list.ViewOk()) && (forall k :: 0 <= k < |signals| ==> signals[k].IsAlbumless()) ==>
              model.list.ViewOk()
  {
    ghost var end, all := PagingRuns.Run(s, events), model.sent + SentInRun(s, events);
    PagingSteps.RunKeeps(s, events);
    InvMeans(end);
    ghost var now, rest := s, events;
    assert signals[0..] == signals;
    for k := 0 to |signals|
      invariant model.Valid() && model.Snapshot() == now.window && model.list.chatId == old(model.list.chatId)
      invariant Ahead(now, rest, signals[k..], model.list.chatId, model.sent, end, all)
      invariant old(model.list.AlbumsOk()) ==> model.list.AlbumsOk()
      invariant old(model.list.ViewOk()) && (forall i :: 0 <= i < |signals| ==> signals[i].IsAlbumless()) ==>
                  model.list.ViewOk()
    {
      TailStep(signals, k);
      AheadStep(now, rest, signals[k..], model.list.chatId, model.sent, end, all);
      Deliver(model, now, rest[0], signals[k]);
      now, rest := Apply(now, rest[0]), rest[1..];
    }
    assert signals[|signals|..] == [];
    AheadEnd(now, rest, model.list.chatId, model.sent, end, all);
  }
}
