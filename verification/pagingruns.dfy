/** The paging protocol against the history the client knows: steps, what TDLib may send, and what holds
    in between. A step is a call by the user, a reply, a pushed message, or a pushed deletion. */
module PagingRuns {
  import opened IdLists
  import opened Lists
  import opened Paging
  import opened Deletion

  /** `history` are the ids the chat has, `top` bounds every id ever seen, `lastId` is the chat's last message,
      `inFlight` are the requests not answered yet, those from before a reset included. */
  datatype System = System(window: Window, history: set<int>, inFlight: seq<Request>, lastId: int, top: int)

  datatype Event =
    | LoadMoreHistory
    | LoadMoreFuture
    | JumpTo(id: int)
    | JumpToEnd(markAllAsRead: bool, lastReadOutboxMessageId: int)
    | Reply(j: int, lo: int, hi: int, totalCount: int)
    | NewMessage(id: int)
    | Deleted(batch: seq<int>, newLastId: int)

  /** The ids of the history from `lo` to `hi`, ascending. */
  ghost function Slice(history: set<int>, lo: int, hi: int): seq<int>
    decreases if lo <= hi then hi + 1 - lo else 0
  {
    if lo > hi then [] else (if lo in history then [lo] else []) + Slice(history, lo + 1, hi)
  }

  lemma {:induction false} SliceFacts(history: set<int>, lo: int, hi: int)
    ensures Ascending(Slice(history, lo, hi))
    ensures forall h :: h in Slice(history, lo, hi) <==> h in history && lo <= h <= hi
    decreases if lo <= hi then hi + 1 - lo else 0
  {
    if lo <= hi {
      SliceFacts(history, lo + 1, hi);
      var rest := Slice(history, lo + 1, hi);
      forall k | 0 <= k < |rest| ensures rest[k] > lo {
        var h := rest[k];
        assert h in rest;
      }
    }
  }

  /** The part of a reply that is not loaded yet. */
  ghost function AddedBy(s: System, e: Event): seq<int>
    requires e.Reply?
  {
    Slice(s.history - Elements(s.window.rows), e.lo, e.hi)
  }

  ghost function Receive(s: System, e: Event): Outcome
    requires e.Reply? && 0 <= e.j < |s.inFlight|
  {
    MessagesReceived(s.window, s.inFlight[e.j].kind, |Slice(s.history, e.lo, e.hi)|, AddedBy(s, e), e.totalCount,
                     s.lastId)
  }

  ghost function Take(o: Outcome, s: System, inFlight: seq<Request>): System
  {
    s.(window := o.window, inFlight := inFlight + o.sent)
  }

  ghost function Apply(s: System, e: Event): System
    requires e.Reply? ==> 0 <= e.j < |s.inFlight|
  {
    match e
    case LoadMoreHistory => Take(Paging.LoadMoreHistory(s.window), s, s.inFlight)
    case LoadMoreFuture => Take(Paging.LoadMoreFuture(s.window), s, s.inFlight)
    case JumpTo(id) => Take(LoadHistoryForMessage(s.window, id), s, s.inFlight)
    case JumpToEnd(markAllAsRead, outbox) => Take(LoadEnd(s.window, markAllAsRead, outbox), s, s.inFlight)
    case Reply(j, _, _, _) => Take(Receive(s, e), s, s.inFlight[..j] + s.inFlight[j + 1..])
    case NewMessage(id) =>
      s.(window := NewMessageReceived(s.window, id), history := s.history + {id}, lastId := id, top := id)
    case Deleted(batch, newLastId) =>
      s.(window := s.window.(rows := DeleteAll(s.window.rows, Reverse(batch))),
         history := s.history - Elements(batch), lastId := newLastId)
  }

  // Stretches of the history

  ghost predicate NothingBelow(history: set<int>, lo: int)
  {
    forall h :: h in history ==> lo <= h
  }

  ghost predicate NothingAbove(history: set<int>, hi: int)
  {
    forall h :: h in history ==> h <= hi
  }

  /** Strictly between. */
  ghost predicate NothingBetween(history: set<int>, from: int, to: int)
  {
    forall h :: h in history ==> !(from < h < to)
  }

  /** At most one message from behind `from` up to `to`. */
  ghost predicate OneAfter(history: set<int>, from: int, to: int)
  {
    forall g, h :: g in history && h in history && from < g <= to && from < h <= to ==> g == h
  }

  ghost predicate OneBelow(history: set<int>, lo: int)
  {
    forall g, h :: g in history && h in history && g < lo && h < lo ==> g == h
  }

  ghost predicate AtMostTwo(history: set<int>, hi: int)
  {
    forall x, y, z :: x in history && y in history && z in history && x < y < z ==> z > hi
  }

  ghost predicate AtMostThree(history: set<int>, hi: int)
  {
    forall w, x, y, z :: w in history && x in history && y in history && z in history && w < x < y < z ==> z > hi
  }

  // What the environment may send

  /** A slice is a stretch lo..hi of the history around its anchor: a previous slice ends just below the anchor, at it,
      or one message past it, a next slice starts at the anchor or just above it, a reload ends there.
      An empty reply says that nothing is left in its direction. */
  ghost predicate Answers(history: set<int>, r: Request, lo: int, hi: int)
  {
    match r.kind
    case UpdateInitial =>
      (if r.fromId == 0 then NothingAbove(history, hi) else lo <= r.fromId <= hi)
      && (Slice(history, lo, hi) == [] ==> history == {})
    case UpdatePreviousSlice =>
      lo <= r.fromId && NothingBetween(history, hi, r.fromId) && OneAfter(history, r.fromId, hi)
      && (Slice(history, lo, hi) == [] ==> NothingBelow(history, r.fromId))
    case UpdateNextSlice =>
      r.fromId <= lo && NothingBetween(history, r.fromId, lo)
      && (Slice(history, lo, hi) == [] ==> NothingAbove(history, r.fromId))
    case UpdateReload => lo <= r.fromId == hi
  }

  ghost predicate NewestIfKnown(history: set<int>, lastId: int)
  {
    lastId in history ==> NothingAbove(history, lastId)
  }

  ghost predicate Possible(s: System, e: Event)
  {
    match e
    case LoadMoreHistory => true
    case LoadMoreFuture => true
    case JumpTo(id) => id <= s.top
    case JumpToEnd(_, outbox) => outbox <= s.top
    case Reply(j, lo, hi, totalCount) =>
      && 0 <= j < |s.inFlight| && hi <= s.top
      && Answers(s.history, s.inFlight[j], lo, hi)
      && (totalCount == 0 ==> Slice(s.history, lo, hi) == [])
    case NewMessage(id) => id > s.top
    case Deleted(batch, newLastId) =>
      && TowardsStart(s.window.rows, Reverse(batch))
      && newLastId <= s.top && NewestIfKnown(s.history - Elements(batch), newLastId)
  }

  // What a run is asked to respect

  /** A reload whose anchor still has a message at or below it: its reply can bring rows. */
  ghost predicate Live(history: set<int>, r: Request)
  {
    r.kind == UpdateReload && exists h :: h in history && h <= r.fromId
  }

  /** Every first slice that has been asked for is answered. */
  predicate FirstAnswered(s: System)
  {
    forall r :: r in s.inFlight ==> r.kind != UpdateInitial
  }

  /** A window reset around `a` and an old reload from `from` cannot come apart. */
  ghost predicate Adjoins(history: set<int>, a: int, from: int)
  {
    if from < a then NothingBetween(history, from, a)
    else NothingBetween(history, a, from + 1) || AtMostTwo(history, from)
  }

  /** Two reloads on both sides of `a`. */
  ghost predicate Astride(history: set<int>, a: int, r: Request, q: Request)
  {
    Live(history, r) && q.kind == UpdateReload && r.fromId < a <= q.fromId
  }

  /** Reloads cannot spoil what follows a first slice around `a` (0 stands for the end of the chat): each adjoins the
      target, and two on both sides of a target that exists have few messages to bring. */
  ghost predicate ReloadsFit(history: set<int>, requests: seq<Request>, a: int)
  {
    && (forall r :: r in requests && Live(history, r) ==> a != 0 && Adjoins(history, a, r.fromId))
    && (a in history ==>
          forall r, q :: r in requests && q in requests && Astride(history, a, r, q) ==> AtMostThree(history, r.fromId))
  }

  /** Two first slices around `p` and `q`, whichever is answered first, cannot come apart: no message lies between the
      two targets, or a single one which is the oldest of the chat. */
  ghost predicate Touch(history: set<int>, p: int, q: int)
  {
    p < q ==> NothingBetween(history, p, q) || (NothingBelow(history, p + 1) && OneAfter(history, p, q - 1))
  }

  predicate IsFirst(requests: seq<Request>, i: int)
  {
    0 <= i < |requests| && requests[i].kind == UpdateInitial
  }

  /** Two requests for first slices, one of which goes unanswered until the rows of the other are gone. */
  ghost predicate FirstsMeet(history: set<int>, p: int, q: int)
  {
    p != 0 && q != 0 && Touch(history, p, q) && Touch(history, q, p)
  }

  ghost predicate FirstsFit(history: set<int>, requests: seq<Request>)
  {
    forall i, j :: IsFirst(requests, i) && IsFirst(requests, j) && i != j ==>
      FirstsMeet(history, requests[i].fromId, requests[j].fromId)
  }

  /** What is outstanding while nothing is loaded cannot spoil what follows. */
  ghost predicate Harmless(history: set<int>, requests: seq<Request>)
  {
    && (forall i :: IsFirst(requests, i) ==> ReloadsFit(history, requests, requests[i].fromId))
    && FirstsFit(history, requests)
  }

  /** The window can be reset around `a`. */
  ghost predicate ResetSafe(s: System, a: int)
  {
    Harmless(s.history, s.inFlight + [Request(UpdateInitial, a)])
  }

  /** The message `g` is next to the anchor of an outstanding first slice or reload, whose reply may be `g` alone. */
  ghost predicate NextTo(history: set<int>, q: Request, g: int)
  {
    && g in history && (q.kind == UpdateInitial || q.kind == UpdateReload)
    && ((g <= q.fromId && NothingBetween(history, g, q.fromId + 1))
        || (q.kind == UpdateInitial && q.fromId <= g && NothingBetween(history, q.fromId - 1, g)))
  }

  /** A previous slice may bring one message newer than its anchor. It cannot be missing from the window if the end is
      reached or a row newer than the anchor is loaded; and it does no harm if nothing older can come with it.
      With nothing loaded, this is asked of what first slices and reloads may load before. */
  ghost predicate PreviousSafe(s: System)
  {
    forall r :: r in s.inFlight && r.kind == UpdatePreviousSlice ==>
      || s.window.endReached
      || (if s.window.rows == [] then
            forall q, g :: q in s.inFlight && NextTo(s.history, q, g) ==> r.fromId < g || NothingBelow(s.history, g)
          else r.fromId < s.window.rows[|s.window.rows| - 1] || NothingBelow(s.history, s.window.rows[0]))
  }

  function Target(e: Event): int
    requires e.JumpTo? || e.JumpToEnd?
  {
    match e
    case JumpTo(id) => id
    case JumpToEnd(markAllAsRead, outbox) => if markAllAsRead then 0 else outbox
  }

  /** The event resets the window. */
  predicate Jumps(s: System, e: Event)
  {
    (e.JumpTo? && CanJump(s.window)) || (e.JumpToEnd? && CanJump(s.window) && !s.window.Waiting(UpdateReload))
  }

  /** A step of a disciplined run: resets are safe, asking for a previous slice and deletions leave outstanding previous
      slices safe, and deletions miss the marker. */
  ghost predicate Allowed(s: System, e: Event)
  {
    && Possible(s, e)
    && (Jumps(s, e) ==> ResetSafe(s, Target(e)))
    && (e.LoadMoreHistory? || e.Deleted? ==> PreviousSafe(s) ==> PreviousSafe(Apply(s, e)))
    && (e.Deleted? ==> MarkerClear(s.window.rows, Reverse(e.batch)))
  }

  ghost predicate AllowedRun(s: System, events: seq<Event>)
    decreases |events|
  {
    events == [] || (Allowed(s, events[0]) && AllowedRun(Apply(s, events[0]), events[1..]))
  }

  ghost function Run(s: System, events: seq<Event>): System
    requires AllowedRun(s, events)
    decreases |events|
  {
    if events == [] then s else Run(Apply(s, events[0]), events[1..])
  }

  // The invariant

  ghost predicate Once(s: System, kind: UpdateType)
  {
    && (forall i, j :: 0 <= i < j < |s.inFlight| ==> !(s.inFlight[i].kind == kind && s.inFlight[j].kind == kind))
    && (s.window.Waiting(kind) <==> exists i :: 0 <= i < |s.inFlight| && s.inFlight[i].kind == kind)
  }

  ghost predicate Sane(s: System)
  {
    && 0 <= s.top
    && (forall h :: h in s.history ==> 0 < h <= s.top)
    && (forall r :: r in s.inFlight ==> r.fromId <= s.top)
    && s.lastId <= s.top && NewestIfKnown(s.history, s.lastId)
    && Ascending(s.window.rows)
    && !s.window.Waiting(UpdateInitial) && Once(s, UpdatePreviousSlice) && Once(s, UpdateNextSlice)
  }

  /** Nothing is loaded, first slices are asked for, and what is outstanding cannot spoil what follows. */
  ghost predicate Blank(s: System)
  {
    && s.window.rows == [] && !s.window.startReached && !s.window.endReached
    && (forall r :: r in s.inFlight ==> r.kind == UpdateInitial || r.kind == UpdateReload)
    && (exists i :: IsFirst(s.inFlight, i))
    && Harmless(s.history, s.inFlight)
  }

  /** The one message a reload can bring past the end of the stretch comes in before the reload is waited for. */
  ghost predicate Dormant(s: System, lo: int, hi: int, from: int)
  {
    && OneAfter(s.history, hi, from) && AtMostThree(s.history, hi) && !s.window.Waiting(UpdateReload)
    && (forall r :: r in s.inFlight && r.kind == UpdatePreviousSlice ==> OneBelow(s.history, lo))
    && (forall r :: r in s.inFlight && r.kind == UpdateInitial ==> r.fromId in s.history && hi < r.fromId <= from)
  }

  /** The covered stretch touches the anchor of a reload. */
  ghost predicate ReloadMeets(s: System, lo: int, hi: int, from: int)
  {
    if from < lo then NothingBetween(s.history, from, lo)
    else if from <= hi then true
    else
      || NothingBetween(s.history, hi, from + 1)
      || (OneAfter(s.history, hi, from) && NothingBelow(s.history, lo))
      || Dormant(s, lo, hi, from)
  }

  /** It touches the anchor of a first slice that an old reload has overtaken. */
  ghost predicate FirstMeets(history: set<int>, lo: int, hi: int, a: int)
  {
    if a < lo then
      || NothingBetween(history, a, lo)
      || (NothingBelow(history, a + 1) && OneAfter(history, a, lo - 1))
    else a <= hi || NothingBetween(history, hi, a)
  }

  ghost predicate Anchored(s: System, lo: int, hi: int, r: Request)
  {
    if r.kind == UpdateInitial then r.fromId != 0 && FirstMeets(s.history, lo, hi, r.fromId)
    else if r.kind == UpdateReload then !Live(s.history, r) || ReloadMeets(s, lo, hi, r.fromId)
    else lo <= r.fromId <= hi
  }

  /** The rows are the whole history between `lo` and `hi`, and every outstanding request is anchored there. */
  ghost predicate Covers(s: System, lo: int, hi: int)
  {
    && lo <= hi <= s.top
    && (forall h :: h in s.window.rows <==> h in s.history && lo <= h <= hi)
    && (s.window.startReached ==> NothingBelow(s.history, lo))
    && (s.window.endReached ==> NothingAbove(s.history, hi))
    && (forall r :: r in s.inFlight ==> Anchored(s, lo, hi, r))
  }

  /** All but the safety of outstanding previous slices. */
  ghost predicate Sound(s: System)
  {
    Sane(s) && (Blank(s) || exists lo, hi :: Covers(s, lo, hi))
  }

  ghost predicate Inv(s: System)
  {
    Sound(s) && PreviousSafe(s)
  }

  /** A model that has just been created or reset and asked for its first slice. */
  ghost predicate Start(s: System)
  {
    && 0 <= s.top && s.window == CLEARED
    && (exists id :: s.inFlight == [Request(UpdateInitial, id)] && id <= s.top)
    && (forall h :: h in s.history ==> 0 < h <= s.top) && s.lastId <= s.top && NewestIfKnown(s.history, s.lastId)
  }

  /** No message of the history between the first and the last row is missing, and no row is foreign or out of order. */
  ghost predicate GapFree(s: System)
  {
    var rows := s.window.rows;
    && Ascending(rows)
    && (forall h :: h in rows ==> h in s.history)
    && (rows != [] ==> forall h :: h in s.history && rows[0] <= h <= rows[|rows| - 1] ==> h in rows)
  }

  lemma {:induction false} StartHolds(s: System)
    requires Start(s)
    ensures Inv(s)
  {
    var id :| s.inFlight == [Request(UpdateInitial, id)] && id <= s.top;
    assert IsFirst(s.inFlight, 0) && Blank(s);
  }

  lemma {:induction false} InvMeans(s: System)
    requires Inv(s)
    ensures GapFree(s)
    ensures var rows := s.window.rows;
            rows != [] && s.window.endReached ==> NothingAbove(s.history, rows[|rows| - 1])
    ensures s.window.rows != [] && s.window.startReached ==> NothingBelow(s.history, s.window.rows[0])
    ensures s.window.startReached && s.window.endReached && s.window.rows == [] ==> s.history == {}
    ensures Once(s, UpdatePreviousSlice) && Once(s, UpdateNextSlice)
  {
    if !Blank(s) {
      var lo, hi :| Covers(s, lo, hi);
      var rows := s.window.rows;
      if rows != [] {
        EndsOf(rows);
      } else if s.window.startReached && s.window.endReached {
        forall h ensures h !in s.history {
          assert h !in rows;
        }
      }
    }
  }

  /** The first and the last row are rows, and bound the others. */
  lemma {:induction false} EndsOf(rows: seq<int>)
    requires Ascending(rows) && rows != []
    ensures rows[0] in rows && rows[|rows| - 1] in rows
    ensures forall h :: h in rows ==> rows[0] <= h <= rows[|rows| - 1]
  {
  }

  // What a reply does

  /** It is taken in and brings something. */
  ghost predicate Accepted(s: System, e: Event)
    requires e.Reply? && 0 <= e.j < |s.inFlight|
  {
    (s.window.Waiting(s.inFlight[e.j].kind) || s.window.rows == []) && AddedBy(s, e) != []
  }

  /** `added` is what a reply to request `j` brings in, or empty; `sent` is the reload it asks for. */
  ghost predicate Replied(s: System, s': System, j: int, added: seq<int>, sent: seq<Request>)
    requires 0 <= j < |s.inFlight|
  {
    var kind := s.inFlight[j].kind;
    && s'.history == s.history && s'.top == s.top && s'.lastId == s.lastId
    && s'.inFlight == s.inFlight[..j] + s.inFlight[j + 1..] + sent
    && s'.window.rows == (if added == [] then s.window.rows else Insert(s.window.rows, added))
    && (sent == [] || (added != [] && kind != UpdateReload && sent == [Request(UpdateReload, added[0])]))
    && (s'.window.Waiting(UpdateReload) <==> kind != UpdateReload && (s.window.Waiting(UpdateReload) || sent != []))
    && (forall k :: k != UpdateReload ==> s'.window.Waiting(k) == (kind != k && s.window.Waiting(k)))
    && (s.window.endReached ==> s'.window.endReached)
  }

  /** The reply is told on: it is empty, or it is taken in and no reload is asked for. */
  ghost predicate ToldOn(w: Window, kind: UpdateType, count: nat, added: seq<int>)
  {
    count == 0
    || ((w.Waiting(kind) || w.rows == []) && (added == [] || count + |added| >= 10 || kind == UpdateReload))
  }

  ghost predicate Told(s: System, e: Event)
    requires e.Reply? && 0 <= e.j < |s.inFlight|
  {
    ToldOn(s.window, s.inFlight[e.j].kind, |Slice(s.history, e.lo, e.hi)|, AddedBy(s, e))
  }

  /** When exactly the end and the start are marked: by a reply that is told on, the end if the chat's last message is
      loaded then or nothing newer than an anchor was found, the start if nothing older was. */
  ghost predicate FlagsAfter(s: System, e: Event, s': System)
    requires e.Reply? && 0 <= e.j < |s.inFlight|
  {
    var kind, nothing := s.inFlight[e.j].kind, e.totalCount == 0;
    && (s'.window.endReached <==>
          || s.window.endReached
          || (Told(s, e) && s.lastId in s'.window.rows)
          || (nothing && (kind == UpdateNextSlice || kind == UpdateInitial)))
    && (s'.window.startReached <==>
          s.window.startReached || (nothing && (kind == UpdatePreviousSlice || kind == UpdateInitial)))
  }

  lemma {:induction false} AddedFacts(s: System, e: Event)
    requires e.Reply?
    ensures Ascending(AddedBy(s, e))
    ensures forall h :: h in AddedBy(s, e) <==> h in s.history && e.lo <= h <= e.hi && h !in s.window.rows
    ensures Slice(s.history, e.lo, e.hi) == [] ==> AddedBy(s, e) == []
  {
    SliceFacts(s.history - Elements(s.window.rows), e.lo, e.hi);
    SliceFacts(s.history, e.lo, e.hi);
    if AddedBy(s, e) != [] {
      var h := AddedBy(s, e)[0];
      assert h in AddedBy(s, e);
      assert h in Slice(s.history, e.lo, e.hi);
    }
  }

  /** What a reply does to the window alone. */
  ghost predicate Received(w: Window, kind: UpdateType, added: seq<int>, told: bool, nothing: bool, lastId: int,
        o: Outcome)
  {
    && o.window.rows == (if added == [] then w.rows else Insert(w.rows, added))
    && o.sent == (if added != [] && !told then [Request(UpdateReload, added[0])] else [])
    && (o.window.Waiting(UpdateReload) <==> kind != UpdateReload && (w.Waiting(UpdateReload) || o.sent != []))
    && (forall k :: k != UpdateReload ==> o.window.Waiting(k) == (kind != k && w.Waiting(k)))
    && (o.window.endReached <==>
          w.endReached
          || (told && (lastId in o.window.rows || (nothing && (kind == UpdateNextSlice || kind == UpdateInitial)))))
    && (o.window.startReached <==>
          w.startReached || (told && nothing && (kind == UpdatePreviousSlice || kind == UpdateInitial)))
  }

  lemma {:induction false} NotifyEffect(w: Window, kind: UpdateType, totalCount: int, lastId: int)
    ensures var w' := NotifyLoaded(w, kind, totalCount, lastId).Wait(kind, false);
            Received(w, kind, [], true, totalCount == 0, lastId, Outcome(w', []))
  {
  }

  /** The same after something has been inserted. */
  lemma {:induction false} InsertEffect(w: Window, kind: UpdateType, added: seq<int>, nothing: bool, lastId: int,
        o: Outcome)
    requires added != [] && Received(w.(rows := Insert(w.rows, added)), kind, [], true, nothing, lastId, o)
    ensures Received(w, kind, added, true, nothing, lastId, o)
  {
  }

  lemma {:induction false} MoreEffect(w: Window, kind: UpdateType, added: seq<int>, nothing: bool, lastId: int)
    requires added != [] && kind != UpdateReload
    ensures var w' := w.(rows := Insert(w.rows, added)).Wait(UpdateReload, true).Wait(kind, false);
            Received(w, kind, added, false, nothing, lastId, Outcome(w', [Request(UpdateReload, added[0])]))
  {
  }

  lemma {:induction false} ReceivedEffect(w: Window, kind: UpdateType, count: nat, added: seq<int>, totalCount: int,
        lastId: int)
    requires count == 0 ==> added == []
    ensures Received(w, kind, if w.Waiting(kind) || w.rows == [] then added else [], ToldOn(w, kind, count, added),
                     totalCount == 0, lastId, MessagesReceived(w, kind, count, added, totalCount, lastId))
  {
    if (w.Waiting(kind) || w.rows == []) && added != [] {
      var w' := w.(rows := Insert(w.rows, added));
      if |added| + count < 10 && kind != UpdateReload {
        MoreEffect(w, kind, added, totalCount == 0, lastId);
      } else {
        NotifyEffect(w', kind, totalCount, lastId);
        InsertEffect(w, kind, added, totalCount == 0, lastId,
                     MessagesReceived(w, kind, count, added, totalCount, lastId));
      }
    } else {
      NotifyEffect(w, kind, totalCount, lastId);
    }
  }

  lemma {:induction false} ReplyEffect(s: System, e: Event)
    requires e.Reply? && 0 <= e.j < |s.inFlight| && (e.totalCount == 0 ==> Slice(s.history, e.lo, e.hi) == [])
    ensures Replied(s, Apply(s, e), e.j, if Accepted(s, e) then AddedBy(s, e) else [], Receive(s, e).sent)
    ensures Receive(s, e).sent
            == if Accepted(s, e) && !Told(s, e) then [Request(UpdateReload, AddedBy(s, e)[0])] else []
    ensures FlagsAfter(s, e, Apply(s, e))
  {
    AddedFacts(s, e);
    ReceivedEffect(s.window, s.inFlight[e.j].kind, |Slice(s.history, e.lo, e.hi)|, AddedBy(s, e), e.totalCount,
                   s.lastId);
  }

  /** What is outstanding after a reply was so before, or has just been sent. */
  lemma {:induction false} StillOutstanding(q: seq<Request>, j: int, sent: seq<Request>)
    requires 0 <= j < |q|
    ensures forall r :: r in q[..j] + q[j + 1..] + sent ==> r in q || r in sent
  {
  }
}
