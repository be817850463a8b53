/** Every step of a disciplined run keeps the invariant of the paging protocol. */
module PagingSteps {
  import opened IdLists
  import opened Lists
  import opened Paging
  import opened Deletion
  import opened PagingRuns

  // Finding messages

  lemma {:induction false} GreatestUpTo(history: set<int>, a: int, h: int) returns (g: int)
    requires h in history && h <= a
    ensures g in history && h <= g <= a && NothingBetween(history, g, a + 1)
    decreases a - h
  {
    if a in history {
      g := a;
    } else {
      g := GreatestUpTo(history, a - 1, h);
      forall x | x in history ensures !(g < x < a + 1) {
        assert x != a;
      }
    }
  }

  lemma {:induction false} LeastFrom(history: set<int>, a: int, h: int) returns (g: int)
    requires h in history && a <= h
    ensures g in history && a <= g <= h && NothingBetween(history, a - 1, g)
    decreases h - a
  {
    if a in history {
      g := a;
    } else {
      g := LeastFrom(history, a + 1, h);
      forall x | x in history ensures !(a - 1 < x < g) {
        assert x != a;
      }
    }
  }

  // Requests and the covered stretch

  /** What a growing stretch must have taken in before a dormant reload may be waited for: the last messages below it,
      or a message past its end. */
  ghost predicate Woken(history: set<int>, lo': int, hi: int, hi': int)
  {
    NothingBelow(history, lo') || exists h :: h in history && hi < h <= hi'
  }

  lemma {:induction false} ReloadStays(s: System, s': System, lo: int, hi: int, lo': int, hi': int, from: int)
    requires s'.history == s.history && lo' <= lo <= hi <= hi' && ReloadMeets(s, lo, hi, from)
    requires forall r :: r in s'.inFlight && r.kind != UpdateReload ==> r in s.inFlight
    requires Dormant(s, lo, hi, from) && s'.window.Waiting(UpdateReload) ==> Woken(s.history, lo', hi, hi')
    ensures ReloadMeets(s', lo', hi', from)
  {
    if from > hi' && !NothingBetween(s.history, hi, from + 1) && !NothingBelow(s.history, lo) {
      if h :| h in s.history && hi < h <= hi' {
        assert NothingBetween(s.history, hi', from + 1);
      } else {
        assert NothingBelow(s.history, lo') || Dormant(s', lo', hi', from);
      }
    }
  }

  lemma {:induction false} FirstStays(history: set<int>, lo: int, hi: int, lo': int, hi': int, a: int)
    requires lo' <= lo <= hi <= hi' && FirstMeets(history, lo, hi, a)
    ensures FirstMeets(history, lo', hi', a)
  {
  }

  lemma {:induction false} AnchoredStays(s: System, s': System, lo: int, hi: int, lo': int, hi': int, r: Request)
    requires s'.history == s.history && lo' <= lo <= hi <= hi' && Anchored(s, lo, hi, r)
    requires forall q :: q in s'.inFlight && q.kind != UpdateReload ==> q in s.inFlight
    requires Dormant(s, lo, hi, r.fromId) && s'.window.Waiting(UpdateReload) ==> Woken(s.history, lo', hi, hi')
    ensures Anchored(s', lo', hi', r)
  {
    if r.kind == UpdateInitial {
      FirstStays(s.history, lo, hi, lo', hi', r.fromId);
    } else if r.kind == UpdateReload && Live(s.history, r) {
      ReloadStays(s, s', lo, hi, lo', hi', r.fromId);
    }
  }

  // Calls

  lemma {:induction false} OnceSent(s: System, s': System, kind: UpdateType)
    requires Once(s, kind) && !s.window.Waiting(kind) && s'.window.Waiting(kind)
    requires |s'.inFlight| == |s.inFlight| + 1 && s'.inFlight[..|s.inFlight|] == s.inFlight
    requires s'.inFlight[|s.inFlight|].kind == kind
    ensures Once(s', kind)
  {
    forall i | 0 <= i < |s.inFlight| ensures s'.inFlight[i] == s.inFlight[i] && s.inFlight[i].kind != kind {
      assert s'.inFlight[..|s.inFlight|][i] == s'.inFlight[i];
    }
  }

  lemma {:induction false} OnceUnsent(s: System, s': System, kind: UpdateType)
    requires Once(s, kind) && s.window.Waiting(kind) == s'.window.Waiting(kind)
    requires |s.inFlight| <= |s'.inFlight| && s'.inFlight[..|s.inFlight|] == s.inFlight
    requires forall i :: |s.inFlight| <= i < |s'.inFlight| ==> s'.inFlight[i].kind != kind
    ensures Once(s', kind)
  {
    forall i | 0 <= i < |s.inFlight| ensures s'.inFlight[i] == s.inFlight[i] {
      assert s'.inFlight[..|s.inFlight|][i] == s'.inFlight[i];
    }
  }

  lemma {:induction false} NotWaiting(s: System, kind: UpdateType)
    requires Once(s, kind) && !s.window.Waiting(kind)
    ensures forall r :: r in s.inFlight ==> r.kind != kind
  {
  }

  /** A previous or next slice is asked for with an anchor in the covered stretch. */
  lemma {:induction false} RequestSane(s: System, s': System, r: Request)
    requires Sane(s) && r.fromId <= s.top && !s.window.Waiting(r.kind)
    requires r.kind == UpdatePreviousSlice || r.kind == UpdateNextSlice
    requires s' == s.(window := s.window.Wait(r.kind, true), inFlight := s.inFlight + [r])
    ensures Sane(s')
  {
    assert s'.inFlight[|s.inFlight|] == r;
    OnceSent(s, s', r.kind);
    OnceUnsent(s, s', if r.kind == UpdatePreviousSlice then UpdateNextSlice else UpdatePreviousSlice);
  }

  lemma {:induction false} RequestCovered(s: System, s': System, r: Request, lo: int, hi: int)
    requires Covers(s, lo, hi) && lo <= r.fromId <= hi
    requires r.kind == UpdateNextSlice || r.kind == UpdatePreviousSlice
    requires r.kind == UpdatePreviousSlice ==>
               OneBelow(s.history, lo) || !AtMostThree(s.history, hi) || NothingAbove(s.history, hi)
    requires s' == s.(window := s.window.Wait(r.kind, true), inFlight := s.inFlight + [r])
    ensures Covers(s', lo, hi)
  {
    forall q | q in s'.inFlight ensures Anchored(s', lo, hi, q) {
      if q == r {
      } else {
        assert q in s.inFlight && Anchored(s, lo, hi, q);
      }
    }
  }

  /** If at most three messages lie at or below the end of the stretch and two rows are among them, at most one does
      below its start. */
  lemma {:induction false} TwoRowsOneBelow(s: System, lo: int, hi: int)
    requires Sane(s) && Covers(s, lo, hi) && |s.window.rows| > 1 && AtMostThree(s.history, hi)
    ensures OneBelow(s.history, lo)
  {
    var first, second := s.window.rows[0], s.window.rows[1];
    assert first in s.window.rows && second in s.window.rows && first < second;
  }

  lemma {:induction false} LoadMoreHistoryKeeps(s: System)
    requires Inv(s) && Allowed(s, LoadMoreHistory)
    ensures Inv(Apply(s, LoadMoreHistory))
  {
    var s' := Apply(s, LoadMoreHistory);
    var rows := s.window.rows;
    if s.window.startReached || s.window.Waiting(UpdatePreviousSlice) || rows == [] {
      assert s' == s;
    } else {
      var lo, hi :| Covers(s, lo, hi);
      EndsOf(rows);
      var r := Request(UpdatePreviousSlice, rows[0]);
      RequestSane(s, s', r);
      assert r in s'.inFlight;
      if |rows| > 1 && AtMostThree(s.history, hi) { TwoRowsOneBelow(s, lo, hi); }
      RequestCovered(s, s', r, lo, hi);
    }
  }

  lemma {:induction false} LoadMoreFutureKeeps(s: System)
    requires Inv(s)
    ensures Inv(Apply(s, LoadMoreFuture))
  {
    var s' := Apply(s, LoadMoreFuture);
    var rows := s.window.rows;
    if s.window.endReached || s.window.Waiting(UpdateNextSlice) || rows == [] {
      assert s' == s;
    } else {
      var lo, hi :| Covers(s, lo, hi);
      EndsOf(rows);
      var r := Request(UpdateNextSlice, rows[|rows| - 1]);
      RequestSane(s, s', r);
      RequestCovered(s, s', r, lo, hi);
    }
  }

  lemma {:induction false} JumpKeeps(s: System, e: Event)
    requires Inv(s) && (e.JumpTo? || e.JumpToEnd?) && Allowed(s, e)
    ensures Inv(Apply(s, e))
  {
    var s' := Apply(s, e);
    if !Jumps(s, e) {
      assert s'.inFlight == s.inFlight && s' == s;
    } else {
      NotWaiting(s, UpdatePreviousSlice);
      NotWaiting(s, UpdateNextSlice);
      ResetBlank(s, s', Target(e));
    }
  }

  /** A reset leaves old reloads and first slices, and the new first slice, to wait for. */
  lemma {:induction false} ResetBlank(s: System, s': System, a: int)
    requires Sane(s) && a <= s.top && ResetSafe(s, a)
    requires forall r :: r in s.inFlight ==> r.kind == UpdateInitial || r.kind == UpdateReload
    requires s' == s.(window := CLEARED, inFlight := s.inFlight + [Request(UpdateInitial, a)])
    ensures Sane(s') && Blank(s') && PreviousSafe(s')
  {
    assert IsFirst(s'.inFlight, |s.inFlight|);
    assert forall i :: 0 <= i < |s.inFlight| ==> s'.inFlight[i] == s.inFlight[i] && s.inFlight[i] in s.inFlight;
  }

  // Pushed messages and deletions

  lemma {:induction false} LiveBefore(history: set<int>, id: int, r: Request)
    requires Live(history + {id}, r) && r.fromId < id
    ensures Live(history, r)
  {
  }

  lemma {:induction false} AdjoinsNewMessage(history: set<int>, id: int, a: int, from: int)
    requires a < id && from < id
    ensures Adjoins(history, a, from) ==> Adjoins(history + {id}, a, from)
    ensures AtMostThree(history, from) ==> AtMostThree(history + {id}, from)
  {
  }

  lemma {:induction false} ReloadsFitNewMessage(history: set<int>, requests: seq<Request>, a: int, id: int)
    requires ReloadsFit(history, requests, a) && a < id && forall r :: r in requests ==> r.fromId < id
    ensures ReloadsFit(history + {id}, requests, a)
  {
    forall r | r in requests && Live(history + {id}, r) ensures a != 0 && Adjoins(history + {id}, a, r.fromId) {
      LiveBefore(history, id, r);
      AdjoinsNewMessage(history, id, a, r.fromId);
    }
    forall r, q | a in history && r in requests && q in requests && Astride(history + {id}, a, r, q)
      ensures AtMostThree(history + {id}, r.fromId)
    {
      LiveBefore(history, id, r);
      assert Astride(history, a, r, q);
      AdjoinsNewMessage(history, id, a, r.fromId);
    }
  }

  lemma {:induction false} TouchNewMessage(history: set<int>, p: int, q: int, id: int)
    requires Touch(history, p, q) && p < id && q < id
    ensures Touch(history + {id}, p, q)
  {
  }

  lemma {:induction false} HarmlessNewMessage(history: set<int>, requests: seq<Request>, id: int)
    requires Harmless(history, requests) && forall r :: r in requests ==> r.fromId < id
    ensures Harmless(history + {id}, requests)
  {
    forall i | IsFirst(requests, i) ensures ReloadsFit(history + {id}, requests, requests[i].fromId) {
      ReloadsFitNewMessage(history, requests, requests[i].fromId, id);
    }
    forall i, j | IsFirst(requests, i) && IsFirst(requests, j) && i != j
      ensures FirstsMeet(history + {id}, requests[i].fromId, requests[j].fromId)
    {
      TouchNewMessage(history, requests[i].fromId, requests[j].fromId, id);
      TouchNewMessage(history, requests[j].fromId, requests[i].fromId, id);
    }
  }

  lemma {:induction false} BlankNewMessage(s: System, s': System, id: int)
    requires Sane(s) && Blank(s) && id > s.top
    requires s' == s.(history := s.history + {id}, lastId := id, top := id)
    ensures Sane(s') && Blank(s')
  {
    HarmlessNewMessage(s.history, s.inFlight, id);
    assert Once(s', UpdatePreviousSlice) && Once(s', UpdateNextSlice);
  }

  /** A new message beyond the reached end of the stretch. */
  lemma {:induction false} AnchoredNewMessage(s: System, s': System, lo: int, hi: int, hi': int, id: int, r: Request)
    requires Anchored(s, lo, hi, r) && lo <= hi <= s.top < id && r.fromId <= s.top
    requires s'.history == s.history + {id} && s'.inFlight == s.inFlight && s'.window.waitingFor == s.window.waitingFor
    requires hi' == hi || (hi' == id && NothingAbove(s.history, hi))
    ensures Anchored(s', lo, hi', r)
  {
    if r.kind == UpdateReload && Live(s'.history, r) {
      LiveBefore(s.history, id, r);
      ReloadMeetsNewMessage(s, s', lo, hi, hi', id, r.fromId);
    }
  }

  lemma {:induction false} ReloadMeetsNewMessage(s: System, s': System, lo: int, hi: int, hi': int, id: int, from: int)
    requires ReloadMeets(s, lo, hi, from) && lo <= hi <= s.top < id && from <= s.top
    requires s'.history == s.history + {id} && s'.inFlight == s.inFlight && s'.window.waitingFor == s.window.waitingFor
    requires hi' == hi || (hi' == id && NothingAbove(s.history, hi))
    ensures ReloadMeets(s', lo, hi', from)
  {
  }

  lemma {:induction false} NewMessageKeeps(s: System, id: int)
    requires Inv(s) && id > s.top
    ensures Inv(Apply(s, NewMessage(id)))
  {
    var s' := Apply(s, NewMessage(id));
    if Blank(s) {
      BlankNewMessage(s, s', id);
    } else {
      var lo, hi :| Covers(s, lo, hi);
      NewMessageCovered(s, s', lo, hi, id);
    }
  }

  lemma {:induction false} NewMessageCovered(s: System, s': System, lo: int, hi: int, id: int)
    requires Inv(s) && id > s.top && s' == Apply(s, NewMessage(id)) && Covers(s, lo, hi)
    ensures Inv(s')
  {
    var rows := s.window.rows;
    assert id !in rows;
    var hi' := if s.window.endReached then id else hi;
    if s.window.endReached {
      if rows != [] { EndsOf(rows); }
      InsertKeepsOrder(rows, [id]);
      assert s'.window.rows == rows + [id];
    }
    forall r | r in s'.inFlight ensures Anchored(s', lo, hi', r) {
      AnchoredNewMessage(s, s', lo, hi, hi', id, r);
    }
    assert Covers(s', lo, hi');
    NewMessageSafe(s, s', id);
  }

  lemma {:induction false} NewMessageSafe(s: System, s': System, id: int)
    requires PreviousSafe(s) && Sane(s) && id > s.top && s' == Apply(s, NewMessage(id))
    requires forall h :: h in s.window.rows ==> h in s.history
    ensures PreviousSafe(s')
  {
    if s.window.rows == [] {
      forall r, q, g | r in s'.inFlight && r.kind == UpdatePreviousSlice && !s.window.endReached
                       && q in s'.inFlight && NextTo(s'.history, q, g)
        ensures r.fromId < g || NothingBelow(s'.history, g)
      {
        if g != id { assert NextTo(s.history, q, g); }
      }
    } else {
      assert s.window.rows[0] in s.window.rows;
    }
  }

  /** The rows after a deletion are those outside the batch. */
  lemma {:induction false} DeletedRows(rows: seq<int>, batch: seq<int>)
    requires Ascending(rows) && TowardsStart(rows, Reverse(batch)) && MarkerClear(rows, Reverse(batch))
    ensures var rows' := DeleteAll(rows, Reverse(batch));
            Ascending(rows') && forall h :: h in rows' <==> h in rows && h !in batch
  {
    DeletionExact(rows, Reverse(batch));
    WithoutAscending(rows, Reverse(batch));
    ReverseMembers(batch);
    forall h ensures h in Without(rows, Reverse(batch)) <==> h in rows && h !in batch {
      WithoutMember(rows, Reverse(batch), h);
    }
  }

  lemma {:induction false} AnchoredDeleted(s: System, s': System, lo: int, hi: int, r: Request)
    requires Anchored(s, lo, hi, r) && s'.history <= s.history
    requires s'.inFlight == s.inFlight && s'.window.waitingFor == s.window.waitingFor
    ensures Anchored(s', lo, hi, r)
  {
    if r.kind == UpdateReload && Live(s'.history, r) {
      assert Live(s.history, r);
      ReloadDeleted(s, s', lo, hi, r.fromId);
    }
  }

  lemma {:induction false} ReloadDeleted(s: System, s': System, lo: int, hi: int, from: int)
    requires ReloadMeets(s, lo, hi, from) && s'.history <= s.history
    requires s'.inFlight == s.inFlight && s'.window.waitingFor == s.window.waitingFor
    ensures ReloadMeets(s', lo, hi, from)
  {
    if from > hi && Dormant(s, lo, hi, from) && !Dormant(s', lo, hi, from) {
      assert NothingBetween(s'.history, hi, from + 1);
    }
  }

  lemma {:induction false} ReloadsFitDeleted(history: set<int>, history': set<int>, requests: seq<Request>, a: int)
    requires ReloadsFit(history, requests, a) && history' <= history
    ensures ReloadsFit(history', requests, a)
  {
    forall r | r in requests && Live(history', r) ensures a != 0 && Adjoins(history', a, r.fromId) {
      assert Live(history, r);
    }
    forall r, q | a in history' && r in requests && q in requests && Astride(history', a, r, q)
      ensures AtMostThree(history', r.fromId)
    {
      assert Live(history, r);
      assert Astride(history, a, r, q);
    }
  }

  lemma {:induction false} HarmlessDeleted(history: set<int>, history': set<int>, requests: seq<Request>)
    requires Harmless(history, requests) && history' <= history
    ensures Harmless(history', requests)
  {
    forall i | IsFirst(requests, i) ensures ReloadsFit(history', requests, requests[i].fromId) {
      ReloadsFitDeleted(history, history', requests, requests[i].fromId);
    }
    forall i, j | IsFirst(requests, i) && IsFirst(requests, j) && i != j
      ensures FirstsMeet(history', requests[i].fromId, requests[j].fromId)
    {
      assert FirstsMeet(history, requests[i].fromId, requests[j].fromId);
    }
  }

  lemma {:induction false} DeletedKeeps(s: System, e: Event)
    requires Inv(s) && e.Deleted? && Allowed(s, e)
    ensures Inv(Apply(s, e))
  {
    var s' := Apply(s, e);
    DeletedRows(s.window.rows, e.batch);
    DeletedSound(s, s', e.batch);
  }

  lemma {:induction false} DeletedSound(s: System, s': System, batch: seq<int>)
    requires Sound(s) && Ascending(s'.window.rows)
    requires s' == s.(window := s.window.(rows := s'.window.rows), history := s.history - Elements(batch),
                      lastId := s'.lastId)
    requires forall h :: h in s'.window.rows <==> h in s.window.rows && h !in batch
    requires s'.lastId <= s.top && NewestIfKnown(s'.history, s'.lastId)
    ensures Sound(s')
  {
    if Blank(s) {
      NotEmptyHas(s'.window.rows);
      assert s'.window == s.window;
      HarmlessDeleted(s.history, s'.history, s.inFlight);
    } else {
      var lo, hi :| Covers(s, lo, hi);
      forall r | r in s'.inFlight ensures Anchored(s', lo, hi, r) {
        AnchoredDeleted(s, s', lo, hi, r);
      }
      assert Covers(s', lo, hi);
    }
  }

  // Replies to a window that covers a stretch

  ghost function Min(a: int, b: int): int { if a < b then a else b }
  ghost function Max(a: int, b: int): int { if a < b then b else a }

  /** Merging a slice that leaves no gap: the rows become the whole history of the joined stretch. */
  lemma {:induction false} MergeCovers(history: set<int>, rows: seq<int>, lo: int, hi: int, slo: int, shi: int,
        added: seq<int>)
    requires Ascending(rows) && Ascending(added) && added != [] && OneSided(rows, added)
    requires forall h :: h in rows <==> h in history && lo <= h <= hi
    requires forall h :: h in added <==> h in history && slo <= h <= shi && h !in rows
    requires NothingBetween(history, hi, slo) && NothingBetween(history, shi, lo) && lo <= hi && slo <= shi
    ensures Ascending(Insert(rows, added))
    ensures forall h :: h in Insert(rows, added) <==> h in history && Min(lo, slo) <= h <= Max(hi, shi)
  {
    InsertKeepsOrder(rows, added);
    forall h ensures h in Insert(rows, added) <==> h in rows || h in added {}
  }

  /** What lies wholly past one end of the stretch is one-sided. */
  lemma {:induction false} PastOneEnd(rows: seq<int>, lo: int, hi: int, added: seq<int>)
    requires forall h :: h in rows ==> lo <= h <= hi
    requires (forall h :: h in added ==> h < lo) || (forall h :: h in added ==> h > hi)
    ensures OneSided(rows, added)
  {
    if rows != [] && added != [] {
      assert rows[0] in rows && rows[|rows| - 1] in rows && added[0] in added && added[|added| - 1] in added;
    }
  }

  /** A slice that can be merged into the covered stretch. */
  ghost predicate Fits(s: System, e: Event, lo: int, hi: int)
    requires e.Reply?
  {
    && OneSided(s.window.rows, AddedBy(s, e))
    && NothingBetween(s.history, hi, e.lo) && NothingBetween(s.history, e.hi, lo)
  }

  lemma {:induction false} PreviousFits(s: System, e: Event, lo: int, hi: int)
    requires Inv(s) && Covers(s, lo, hi) && e.Reply? && Possible(s, e)
    requires s.inFlight[e.j].kind == UpdatePreviousSlice
    ensures Fits(s, e, lo, hi)
  {
    var r, rows, added := s.inFlight[e.j], s.window.rows, AddedBy(s, e);
    assert r in s.inFlight && lo <= r.fromId <= hi;
    AddedFacts(s, e);
    if rows != [] {
      EndsOf(rows);
      if s.window.endReached || r.fromId < rows[|rows| - 1] {
        forall h | h in added ensures h < lo {}
      } else {
        forall h | h in added ensures h > hi {}
      }
      PastOneEnd(rows, lo, hi, added);
    }
  }

  lemma {:induction false} NextFits(s: System, e: Event, lo: int, hi: int)
    requires Covers(s, lo, hi) && e.Reply? && Possible(s, e) && s.inFlight[e.j].kind == UpdateNextSlice
    requires AddedBy(s, e) != []
    ensures Fits(s, e, lo, hi)
    ensures forall h :: h in AddedBy(s, e) ==> h > hi
  {
    var r := s.inFlight[e.j];
    assert r in s.inFlight && lo <= r.fromId <= hi;
    AddedFacts(s, e);
    assert AddedBy(s, e)[0] in AddedBy(s, e);
    PastOneEnd(s.window.rows, lo, hi, AddedBy(s, e));
  }

  lemma {:induction false} ReloadFits(s: System, e: Event, lo: int, hi: int)
    requires Covers(s, lo, hi) && e.Reply? && Possible(s, e) && s.inFlight[e.j].kind == UpdateReload
    requires Accepted(s, e)
    ensures Fits(s, e, lo, hi)
  {
    var r, rows, added := s.inFlight[e.j], s.window.rows, AddedBy(s, e);
    AddedFacts(s, e);
    var first := added[0];
    assert r in s.inFlight && first in added && first <= r.fromId;
    assert ReloadMeets(s, lo, hi, r.fromId);
    if rows != [] {
      if r.fromId <= hi || NothingBetween(s.history, hi, r.fromId + 1) {
        forall h | h in added ensures h < lo {}
      } else {
        forall h | h in added ensures h > hi {}
      }
      PastOneEnd(rows, lo, hi, added);
    }
  }

  /** A first slice is taken in late only when nothing is loaded. */
  lemma {:induction false} FirstFits(s: System, e: Event, lo: int, hi: int)
    requires Sane(s) && Covers(s, lo, hi) && e.Reply? && Possible(s, e) && s.inFlight[e.j].kind == UpdateInitial
    requires Accepted(s, e)
    ensures Fits(s, e, lo, hi) && s.window.rows == []
  {
    var a, added := s.inFlight[e.j].fromId, AddedBy(s, e);
    AddedFacts(s, e);
    var first := added[0];
    assert s.inFlight[e.j] in s.inFlight && first in added;
    assert FirstMeets(s.history, lo, hi, a) && a != 0 && e.lo <= a <= e.hi;
  }

  lemma {:induction false} AcceptedFits(s: System, e: Event, lo: int, hi: int)
    requires Inv(s) && Covers(s, lo, hi) && e.Reply? && Possible(s, e) && Accepted(s, e)
    ensures Fits(s, e, lo, hi)
  {
    match s.inFlight[e.j].kind
    case UpdateInitial => FirstFits(s, e, lo, hi);
    case UpdatePreviousSlice => PreviousFits(s, e, lo, hi);
    case UpdateNextSlice => NextFits(s, e, lo, hi);
    case UpdateReload => ReloadFits(s, e, lo, hi);
  }

  /** Before the reload that an accepted slice asks for can be waited for, dormant ones are woken. */
  lemma {:induction false} AcceptedWakes(s: System, e: Event, lo: int, hi: int, from: int)
    requires Sane(s) && Covers(s, lo, hi) && e.Reply? && Possible(s, e) && Accepted(s, e)
    requires s.inFlight[e.j].kind != UpdateReload && Dormant(s, lo, hi, from)
    ensures Woken(s.history, Min(lo, e.lo), hi, Max(hi, e.hi))
  {
    var r, added := s.inFlight[e.j], AddedBy(s, e);
    AddedFacts(s, e);
    var first := added[0];
    assert r in s.inFlight && first in added;
    if r.kind == UpdateInitial {
      assert r.fromId in s.history && hi < r.fromId <= e.hi;
    } else if first < lo {
      assert r.kind == UpdatePreviousSlice;
      assert NothingBelow(s.history, first);
    } else {
      assert hi < first <= e.hi;
    }
  }

  lemma {:induction false} AcceptedMerges(s: System, e: Event, lo: int, hi: int)
    requires Inv(s) && Covers(s, lo, hi) && e.Reply? && Possible(s, e) && Accepted(s, e)
    ensures var rows := Insert(s.window.rows, AddedBy(s, e));
            && Ascending(rows)
            && forall h :: h in rows <==> h in s.history && Min(lo, e.lo) <= h <= Max(hi, e.hi)
  {
    AddedFacts(s, e);
    AcceptedFits(s, e, lo, hi);
    MergeCovers(s.history, s.window.rows, lo, hi, e.lo, e.hi, AddedBy(s, e));
  }

  /** The requests after a reply are anchored in the stretch that has grown to lo'..hi'. */
  lemma {:induction false} AnchoredAfter(s: System, s': System, j: int, added: seq<int>, sent: seq<Request>,
        lo: int, hi: int, lo': int, hi': int)
    requires Covers(s, lo, hi) && 0 <= j < |s.inFlight| && Replied(s, s', j, added, sent) && lo' <= lo && hi <= hi'
    requires added != [] ==> lo' <= added[0] <= hi'
    requires forall from :: sent != [] && Dormant(s, lo, hi, from) ==> Woken(s.history, lo', hi, hi')
    ensures forall r :: r in s'.inFlight ==> Anchored(s', lo', hi', r)
  {
    StillOutstanding(s.inFlight, j, sent);
    forall r | r in s'.inFlight ensures Anchored(s', lo', hi', r) {
      if r in sent {
        assert r == Request(UpdateReload, added[0]);
      } else {
        AnchoredStays(s, s', lo, hi, lo', hi', r);
      }
    }
  }

  lemma {:induction false} AcceptedCovers(s: System, s': System, e: Event, sent: seq<Request>, lo: int, hi: int)
    requires Inv(s) && Covers(s, lo, hi) && e.Reply? && Possible(s, e) && Accepted(s, e)
    requires Replied(s, s', e.j, AddedBy(s, e), sent) && FlagsAfter(s, e, s')
    ensures Ascending(s'.window.rows) && Covers(s', Min(lo, e.lo), Max(hi, e.hi))
  {
    var lo', hi', added := Min(lo, e.lo), Max(hi, e.hi), AddedBy(s, e);
    AcceptedMerges(s, e, lo, hi);
    AddedFacts(s, e);
    assert added[0] in added;
    forall from | sent != [] && Dormant(s, lo, hi, from) ensures Woken(s.history, lo', hi, hi') {
      AcceptedWakes(s, e, lo, hi, from);
    }
    AnchoredAfter(s, s', e.j, added, sent, lo, hi, lo', hi');
    assert Slice(s.history, e.lo, e.hi) != [];
  }

  /** A reply that brings nothing in leaves the stretch as it is. */
  lemma {:induction false} IgnoredCovers(s: System, s': System, e: Event, lo: int, hi: int)
    requires Inv(s) && Covers(s, lo, hi) && e.Reply? && Possible(s, e)
    requires Replied(s, s', e.j, [], []) && FlagsAfter(s, e, s')
    ensures Covers(s', lo, hi)
  {
    assert s.inFlight[e.j] in s.inFlight;
    AnchoredAfter(s, s', e.j, [], [], lo, hi, lo, hi);
  }

  lemma {:induction false} ReplyCovers(s: System, e: Event, lo: int, hi: int)
    requires Inv(s) && Covers(s, lo, hi) && e.Reply? && Possible(s, e)
    ensures Ascending(Apply(s, e).window.rows)
    ensures exists lo', hi' :: Covers(Apply(s, e), lo', hi')
  {
    var s', sent := Apply(s, e), Receive(s, e).sent;
    ReplyEffect(s, e);
    if Accepted(s, e) {
      AcceptedCovers(s, s', e, sent, lo, hi);
    } else {
      IgnoredCovers(s, s', e, lo, hi);
    }
  }

  // Replies to a blank window

  lemma {:induction false} ReplyKinds(s: System, s': System, j: int, added: seq<int>, sent: seq<Request>)
    requires Blank(s) && 0 <= j < |s.inFlight| && Replied(s, s', j, added, sent)
    ensures forall r :: r in s'.inFlight ==> r in s.inFlight || r in sent
    ensures forall r :: r in s'.inFlight ==> r.kind == UpdateInitial || r.kind == UpdateReload
  {
    StillOutstanding(s.inFlight, j, sent);
  }

  /** What is left when one answer has come is harmless too. */
  lemma {:induction false} HarmlessLess(history: set<int>, q: seq<Request>, j: int)
    requires Harmless(history, q) && 0 <= j < |q|
    ensures Harmless(history, q[..j] + q[j + 1..] + [])
  {
    var rest := q[..j] + q[j + 1..] + [];
    StillOutstanding(q, j, []);
    forall i | IsFirst(rest, i) ensures ReloadsFit(history, rest, rest[i].fromId) {
      assert IsFirst(q, if i < j then i else i + 1);
      ReloadsFitLess(history, q, rest, rest[i].fromId);
    }
    forall i, k | IsFirst(rest, i) && IsFirst(rest, k) && i != k
      ensures FirstsMeet(history, rest[i].fromId, rest[k].fromId)
    {
      var i', k' := if i < j then i else i + 1, if k < j then k else k + 1;
      assert IsFirst(q, i') && IsFirst(q, k') && i' != k';
    }
  }

  lemma {:induction false} ReloadsFitLess(history: set<int>, q: seq<Request>, rest: seq<Request>, a: int)
    requires ReloadsFit(history, q, a) && forall r :: r in rest ==> r in q
    ensures ReloadsFit(history, rest, a)
  {
  }

  /** Where nothing comes in, the window stays blank. */
  lemma {:induction false} BlankStays(s: System, s': System, e: Event)
    requires Blank(s) && e.Reply? && Possible(s, e) && s.inFlight[e.j].kind == UpdateReload
    requires Replied(s, s', e.j, [], []) && FlagsAfter(s, e, s')
    ensures Blank(s')
  {
    var j := e.j;
    ReplyKinds(s, s', j, [], []);
    HarmlessLess(s.history, s.inFlight, j);
    var i :| IsFirst(s.inFlight, i);
    assert IsFirst(s'.inFlight, if i < j then i else i - 1);
  }

  /** The first slices that are left when one has been answered. */
  lemma {:induction false} OtherFirst(s: System, j: int, r: Request)
    requires Blank(s) && IsFirst(s.inFlight, j) && r in s.inFlight[..j] + s.inFlight[j + 1..] && r.kind == UpdateInitial
    ensures FirstsMeet(s.history, s.inFlight[j].fromId, r.fromId)
  {
    var rest := s.inFlight[..j] + s.inFlight[j + 1..];
    var i :| 0 <= i < |rest| && rest[i] == r;
    assert IsFirst(s.inFlight, if i < j then i else i + 1);
  }

  /** If the first slice is empty, the chat is. */
  lemma {:induction false} EmptyFirst(s: System, s': System, e: Event)
    requires Sane(s) && Blank(s) && e.Reply? && Possible(s, e) && s.inFlight[e.j].kind == UpdateInitial
    requires Slice(s.history, e.lo, e.hi) == [] && Replied(s, s', e.j, [], [])
    ensures Covers(s', s.top, s.top)
  {
    ReplyKinds(s, s', e.j, [], []);
    assert s.history == {};
    forall r | r in s'.inFlight ensures Anchored(s', s.top, s.top, r) {
      if r.kind == UpdateInitial {
        OtherFirst(s, e.j, r);
      }
    }
  }

  /** Another first slice around `t` against a first slice slo..shi around `a` that is not empty. */
  lemma {:induction false} FirstMeetsFirst(history: set<int>, a: int, slo: int, shi: int, t: int, h: int)
    requires FirstsMeet(history, a, t) && slo <= a <= shi && h in history && slo <= h <= shi
    ensures FirstMeets(history, slo, shi, t)
  {
    if shi < t && !NothingBetween(history, a, t) {
      forall x | x in history ensures !(shi < x < t) {}
    }
  }

  /** An old reload against a first slice slo..shi around `a` that is not empty. */
  lemma {:induction false} ReloadMeetsFirst(s: System, a: int, slo: int, shi: int, from: int, h: int)
    requires a != 0 && Adjoins(s.history, a, from) && slo <= a <= shi
    requires h in s.history && slo <= h <= shi
    ensures ReloadMeets(s, slo, shi, from)
  {
    if from > shi && !NothingBetween(s.history, a, from + 1) {
      assert AtMostTwo(s.history, from);
    }
  }

  lemma {:induction false} FirstCovers(s: System, s': System, e: Event, sent: seq<Request>)
    requires Sane(s) && Blank(s) && e.Reply? && Possible(s, e) && s.inFlight[e.j].kind == UpdateInitial
    requires AddedBy(s, e) != [] && Replied(s, s', e.j, AddedBy(s, e), sent) && FlagsAfter(s, e, s')
    ensures Ascending(s'.window.rows) && Covers(s', e.lo, e.hi)
  {
    var added := AddedBy(s, e);
    AddedFacts(s, e);
    var first := added[0];
    assert first in added && s.inFlight[e.j] in s.inFlight && IsFirst(s.inFlight, e.j);
    ReplyKinds(s, s', e.j, added, sent);
    forall r | r in s'.inFlight ensures Anchored(s', e.lo, e.hi, r) {
      if r in sent {
        assert r == Request(UpdateReload, first);
      } else {
        FirstAnchors(s, s', e, r, first);
      }
    }
  }

  lemma {:induction false} FirstAnchors(s: System, s': System, e: Event, r: Request, h: int)
    requires Blank(s) && e.Reply? && IsFirst(s.inFlight, e.j) && Possible(s, e)
    requires h in s.history && e.lo <= h <= e.hi && s'.history == s.history
    requires r in s.inFlight[..e.j] + s.inFlight[e.j + 1..] && (r.kind == UpdateInitial || r.kind == UpdateReload)
    ensures Anchored(s', e.lo, e.hi, r)
  {
    var a := s.inFlight[e.j].fromId;
    if r.kind == UpdateInitial {
      OtherFirst(s, e.j, r);
      FirstMeetsFirst(s.history, a, e.lo, e.hi, r.fromId, h);
    } else if Live(s.history, r) {
      StillOutstanding(s.inFlight, e.j, []);
      assert ReloadsFit(s.history, s.inFlight, a) && r in s.inFlight;
      ReloadMeetsFirst(s', a, e.lo, e.hi, r.fromId, h);
    }
  }

  /** Two old reloads and a message the first of them brings: at most one message lies past it for the other. */
  lemma {:induction false} ReloadsMeet(history: set<int>, a: int, from: int, q: int, h: int)
    requires Adjoins(history, a, from) && Adjoins(history, a, q) && from < q
    requires h in history && h <= from
    ensures OneAfter(history, from, q)
  {
    if from < a <= q && NothingBetween(history, a, q + 1) {
      forall x | x in history && from < x <= q ensures x == a {}
    }
  }

  /** If nothing is left below the slice or a is the one message past it, that is all the better. */
  lemma {:induction false} OnePast(history: set<int>, a: int, slo: int, from: int, q: int, g: int, h: int)
    requires Adjoins(history, a, from) && Adjoins(history, a, q) && from < q
    requires h in history && slo <= h <= from && g in history && from < g <= q && !NothingBelow(history, slo)
    ensures g == a && from < a
  {
  }

  /** A reload below the slice. */
  lemma {:induction false} ReloadBelow(history: set<int>, a: int, slo: int, from: int, q: int, g: int, h: int)
    requires Adjoins(history, a, from) && Adjoins(history, a, q) && q < slo
    requires h in history && slo <= h <= from && g in history && g <= q
    ensures NothingBetween(history, q, slo)
  {
    forall x | x in history ensures !(q < x < slo) {}
  }

  /** Another old reload `q` against the slice slo..from of an old reload that has overtaken the first slices:
      of several targets with a message between the two reloads none is another message. */
  lemma {:induction false} ReloadMeetsReload(s: System, a: int, slo: int, from: int, q: int, g: int, h: int)
    requires Adjoins(s.history, a, from) && Adjoins(s.history, a, q)
    requires h in s.history && slo <= h <= from && g in s.history && g <= q
    requires !s.window.Waiting(UpdateReload) && forall r :: r in s.inFlight ==> r.kind != UpdatePreviousSlice
    requires forall r :: r in s.inFlight && r.kind == UpdateInitial ==>
               Adjoins(s.history, r.fromId, from) && Adjoins(s.history, r.fromId, q)
    requires from < a <= q && a in s.history ==> AtMostThree(s.history, from)
    ensures ReloadMeets(s, slo, from, q)
  {
    if q < slo {
      ReloadBelow(s.history, a, slo, from, q, g, h);
    } else if q > from {
      ReloadsMeet(s.history, a, from, q, h);
      if x :| x in s.history && from < x < q + 1 && !NothingBelow(s.history, slo) {
        OnePast(s.history, a, slo, from, q, x, h);
        forall r | r in s.inFlight && r.kind == UpdateInitial ensures r.fromId == x {
          OnePast(s.history, r.fromId, slo, from, q, x, h);
        }
        assert Dormant(s, slo, from, q);
      }
    }
  }

  /** The first slice against it. */
  lemma {:induction false} FirstMeetsReload(history: set<int>, a: int, slo: int, from: int, h: int)
    requires Adjoins(history, a, from) && h in history && slo <= h <= from
    ensures FirstMeets(history, slo, from, a)
  {
  }

  /** Each of the targets and a live reload. */
  lemma {:induction false} TargetsAdjoin(s: System, r: Request)
    requires Blank(s) && r in s.inFlight && Live(s.history, r)
    ensures forall t :: t in s.inFlight && t.kind == UpdateInitial ==>
              t.fromId != 0 && Adjoins(s.history, t.fromId, r.fromId)
  {
    forall t | t in s.inFlight && t.kind == UpdateInitial
      ensures t.fromId != 0 && Adjoins(s.history, t.fromId, r.fromId)
    {
      var i :| 0 <= i < |s.inFlight| && s.inFlight[i] == t;
      assert IsFirst(s.inFlight, i);
    }
  }

  lemma {:induction false} OvertakenCovers(s: System, s': System, e: Event)
    requires Sane(s) && Blank(s) && e.Reply? && Possible(s, e) && s.inFlight[e.j].kind == UpdateReload
    requires AddedBy(s, e) != [] && Replied(s, s', e.j, AddedBy(s, e), []) && FlagsAfter(s, e, s')
    ensures Ascending(s'.window.rows) && Covers(s', e.lo, e.hi)
  {
    var added, r0 := AddedBy(s, e), s.inFlight[e.j];
    AddedFacts(s, e);
    var first := added[0];
    assert first in added && r0 in s.inFlight && Live(s.history, r0);
    ReplyKinds(s, s', e.j, added, []);
    forall r | r in s'.inFlight ensures Anchored(s', e.lo, e.hi, r) {
      OvertakenAnchors(s, s', e, r, first);
    }
  }

  lemma {:induction false} OvertakenAnchors(s: System, s': System, e: Event, r: Request, h: int)
    requires Blank(s) && e.Reply? && Possible(s, e) && s.inFlight[e.j].kind == UpdateReload
    requires h in s.history && e.lo <= h <= e.hi && s'.history == s.history && !s'.window.Waiting(UpdateReload)
    requires r in s.inFlight && forall q :: q in s'.inFlight ==> q in s.inFlight
    ensures Anchored(s', e.lo, e.hi, r)
  {
    var r0 := s.inFlight[e.j];
    assert r0 in s.inFlight && Live(s.history, r0);
    TargetsAdjoin(s, r0);
    if r.kind == UpdateInitial {
      FirstMeetsReload(s.history, r.fromId, e.lo, e.hi, h);
    } else if Live(s.history, r) {
      TargetsAdjoin(s, r);
      var i :| IsFirst(s.inFlight, i);
      var a := s.inFlight[i].fromId;
      assert s.inFlight[i] in s.inFlight;
      assert r0.fromId < a <= r.fromId ==> Astride(s.history, a, r0, r);
      var g :| g in s.history && g <= r.fromId;
      ReloadMeetsReload(s', a, e.lo, e.hi, r.fromId, g, h);
    }
  }

  lemma {:induction false} BlankReply(s: System, e: Event)
    requires Sane(s) && Blank(s) && e.Reply? && Possible(s, e)
    ensures Ascending(Apply(s, e).window.rows)
    ensures Blank(Apply(s, e)) || exists lo, hi :: Covers(Apply(s, e), lo, hi)
  {
    var s', sent := Apply(s, e), Receive(s, e).sent;
    ReplyEffect(s, e);
    assert s.inFlight[e.j] in s.inFlight;
    if AddedBy(s, e) != [] {
      if s.inFlight[e.j].kind == UpdateInitial {
        FirstCovers(s, s', e, sent);
      } else {
        OvertakenCovers(s, s', e);
      }
    } else if s.inFlight[e.j].kind == UpdateInitial {
      SliceUnloaded(s, e);
      EmptyFirst(s, s', e);
    } else {
      BlankStays(s, s', e);
    }
  }

  lemma {:induction false} SliceUnloaded(s: System, e: Event)
    requires e.Reply? && s.window.rows == []
    ensures AddedBy(s, e) == Slice(s.history, e.lo, e.hi)
  {
    assert s.history - Elements(s.window.rows) == s.history;
  }

  // The rest of the invariant

  lemma {:induction false} OnceReplied(s: System, s': System, j: int, sent: seq<Request>, kind: UpdateType)
    requires Once(s, kind) && 0 <= j < |s.inFlight|
    requires s'.inFlight == s.inFlight[..j] + s.inFlight[j + 1..] + sent
    requires forall i :: 0 <= i < |sent| ==> sent[i].kind != kind
    requires s'.window.Waiting(kind) == (s.inFlight[j].kind != kind && s.window.Waiting(kind))
    ensures Once(s', kind)
  {
    var n := |s.inFlight| - 1;
    forall i | 0 <= i < n ensures s'.inFlight[i] == s.inFlight[if i < j then i else i + 1] {}
    forall i | n <= i < |s'.inFlight| ensures s'.inFlight[i].kind != kind {
      assert s'.inFlight[i] == sent[i - n];
    }
    if s.window.Waiting(kind) && s.inFlight[j].kind != kind {
      var i :| 0 <= i < |s.inFlight| && s.inFlight[i].kind == kind;
      assert s'.inFlight[if i < j then i else i - 1].kind == kind;
    }
  }

  lemma {:induction false} ReplySane(s: System, s': System, e: Event, added: seq<int>, sent: seq<Request>)
    requires Sane(s) && e.Reply? && Possible(s, e) && Replied(s, s', e.j, added, sent) && Ascending(s'.window.rows)
    requires added != [] ==> added[0] in s.history
    ensures Sane(s')
  {
    OnceReplied(s, s', e.j, sent, UpdatePreviousSlice);
    OnceReplied(s, s', e.j, sent, UpdateNextSlice);
    StillOutstanding(s.inFlight, e.j, sent);
  }

  /** While a previous slice is outstanding, replies to other requests leave it safe. */
  lemma {:induction false} ReplySafe(s: System, s': System, e: Event, added: seq<int>, sent: seq<Request>)
    requires Inv(s) && e.Reply? && Possible(s, e) && Replied(s, s', e.j, added, sent)
    requires added == (if Accepted(s, e) then AddedBy(s, e) else []) && s.inFlight[e.j].kind != UpdatePreviousSlice
    requires Ascending(s'.window.rows)
    ensures PreviousSafe(s')
  {
    StillOutstanding(s.inFlight, e.j, sent);
    assert s.inFlight[e.j] in s.inFlight;
    forall r | r in s'.inFlight && r.kind == UpdatePreviousSlice
      ensures || s'.window.endReached
              || (if s'.window.rows == [] then
                    forall q, g :: q in s'.inFlight && NextTo(s'.history, q, g) ==>
                      r.fromId < g || NothingBelow(s'.history, g)
                  else r.fromId < s'.window.rows[|s'.window.rows| - 1] || NothingBelow(s'.history, s'.window.rows[0]))
    {
      assert r in s.inFlight;
      if !s.window.endReached && added != [] {
        if s.window.rows != [] {
          GrownEnds(s.window.rows, added);
        } else {
          FilledSafely(s, e, r);
        }
      }
    }
  }

  lemma {:induction false} GrownEnds(rows: seq<int>, added: seq<int>)
    requires rows != [] && added != [] && Ascending(Insert(rows, added))
    ensures var rows' := Insert(rows, added);
            rows' != [] && rows'[0] <= rows[0] && rows[|rows| - 1] <= rows'[|rows'| - 1]
  {
    var rows' := Insert(rows, added);
    if rows[|rows| - 1] < added[0] {
      assert rows' == rows + added;
      assert rows'[|rows| - 1] == rows[|rows| - 1];
    } else {
      assert rows' == added + rows;
      assert rows'[|added|] == rows[0];
    }
  }

  /** What comes in where nothing is loaded leaves an outstanding previous slice safe. */
  lemma {:induction false} FilledSafely(s: System, e: Event, r: Request)
    requires Inv(s) && e.Reply? && Possible(s, e) && Accepted(s, e) && s.inFlight[e.j].kind != UpdatePreviousSlice
    requires r in s.inFlight && r.kind == UpdatePreviousSlice && s.window.rows == [] && !s.window.endReached
    ensures var added := AddedBy(s, e);
            r.fromId < added[|added| - 1] || NothingBelow(s.history, added[0])
  {
    var added, q := AddedBy(s, e), s.inFlight[e.j];
    AddedFacts(s, e);
    EndsOf(added);
    assert q in s.inFlight;
    if q.kind == UpdateNextSlice {
      var lo, hi :| Covers(s, lo, hi);
      NextFits(s, e, lo, hi);
    } else {
      var g := NextToAnchor(s, e);
      assert added[0] <= g <= added[|added| - 1];
    }
  }

  /** One of the messages that come in is next to the anchor, and there is nothing before it or it is the first. */
  lemma {:induction false} NextToAnchor(s: System, e: Event) returns (g: int)
    requires e.Reply? && Possible(s, e) && s.window.rows == [] && AddedBy(s, e) != []
    requires var q := s.inFlight[e.j];
             q.kind == UpdateReload || (q.kind == UpdateInitial && q.fromId != 0)
    ensures g in AddedBy(s, e) && NextTo(s.history, s.inFlight[e.j], g)
  {
    var added, a := AddedBy(s, e), s.inFlight[e.j].fromId;
    AddedFacts(s, e);
    if x :| x in added && x <= a {
      g := GreatestUpTo(s.history, a, x);
    } else {
      assert added[0] in added;
      g := LeastFrom(s.history, a, added[0]);
    }
  }

  /** The previous slice that has been answered is not outstanding any more. */
  lemma {:induction false} AnsweredOnce(s: System, s': System, j: int, added: seq<int>, sent: seq<Request>)
    requires Once(s, UpdatePreviousSlice) && 0 <= j < |s.inFlight| && s.inFlight[j].kind == UpdatePreviousSlice
    requires Replied(s, s', j, added, sent)
    ensures forall r :: r in s'.inFlight ==> r.kind != UpdatePreviousSlice
  {
  }

  lemma {:induction false} ReplyKeeps(s: System, e: Event)
    requires Inv(s) && e.Reply? && Possible(s, e)
    ensures Inv(Apply(s, e))
  {
    var s', sent := Apply(s, e), Receive(s, e).sent;
    if Blank(s) {
      BlankReply(s, e);
    } else {
      var lo, hi :| Covers(s, lo, hi);
      ReplyCovers(s, e, lo, hi);
    }
    ReplyEffect(s, e);
    ReplyRest(s, s', e, sent);
  }

  lemma {:induction false} ReplyRest(s: System, s': System, e: Event, sent: seq<Request>)
    requires Inv(s) && e.Reply? && Possible(s, e) && Ascending(s'.window.rows)
    requires Replied(s, s', e.j, if Accepted(s, e) then AddedBy(s, e) else [], sent)
    ensures Sane(s') && PreviousSafe(s')
  {
    var added := if Accepted(s, e) then AddedBy(s, e) else [];
    AddedFacts(s, e);
    if added != [] { assert added[0] in AddedBy(s, e); }
    ReplySane(s, s', e, added, sent);
    if s.inFlight[e.j].kind == UpdatePreviousSlice {
      AnsweredOnce(s, s', e.j, added, sent);
    } else {
      ReplySafe(s, s', e, added, sent);
    }
  }

  // Runs

  /** One step of a disciplined run. */
  lemma {:induction false} StepKeeps(s: System, e: Event)
    requires Inv(s) && Allowed(s, e)
    ensures Inv(Apply(s, e))
  {
    match e
    case LoadMoreHistory => LoadMoreHistoryKeeps(s);
    case LoadMoreFuture => LoadMoreFutureKeeps(s);
    case JumpTo(_) => JumpKeeps(s, e);
    case JumpToEnd(_, _) => JumpKeeps(s, e);
    case Reply(_, _, _, _) => ReplyKeeps(s, e);
    case NewMessage(id) => NewMessageKeeps(s, id);
    case Deleted(_, _) => DeletedKeeps(s, e);
  }

  lemma {:induction false} RunKeeps(s: System, events: seq<Event>)
    requires Inv(s) && AllowedRun(s, events)
    ensures Inv(Run(s, events))
    decreases |events|
  {
    if events == [] {
    } else {
      StepKeeps(s, events[0]);
      RunKeeps(Apply(s, events[0]), events[1..]);
    }
  }

  /** Over every disciplined run the loaded list is a gap-free stretch of the history, the reached flags
      are true, and a previous or next request is outstanding exactly while its flag waits for it. */
  lemma {:induction false} PagingSafe(s: System, events: seq<Event>)
    requires Start(s) && AllowedRun(s, events)
    ensures var s' := Run(s, events);
            var rows := s'.window.rows;
            && GapFree(s')
            && (rows != [] && s'.window.endReached ==> NothingAbove(s'.history, rows[|rows| - 1]))
            && (rows != [] && s'.window.startReached ==> NothingBelow(s'.history, rows[0]))
            && (rows == [] && s'.window.startReached && s'.window.endReached ==> s'.history == {})
            && Once(s', UpdatePreviousSlice) && Once(s', UpdateNextSlice)
  {
    StartHolds(s);
    RunKeeps(s, events);
    InvMeans(Run(s, events));
  }

  /** An accepted slice leaves nothing out between its anchor and the nearest row. */
  lemma {:induction false} AcceptedIsAnchored(s: System, e: Event)
    requires Inv(s) && e.Reply? && Possible(s, e) && Accepted(s, e) && s.window.rows != []
    ensures var rows, from := s.window.rows, s.inFlight[e.j].fromId;
            forall h :: h in s.history && (from <= h < rows[0] || rows[|rows| - 1] < h <= from) ==> h in AddedBy(s, e)
  {
    var rows, r := s.window.rows, s.inFlight[e.j];
    AddedFacts(s, e);
    EndsOf(rows);
    var lo, hi :| Covers(s, lo, hi);
    assert r in s.inFlight && Anchored(s, lo, hi, r);
    assert AddedBy(s, e)[0] in AddedBy(s, e);
  }
}
