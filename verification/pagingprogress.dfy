/** Calls for more and their answers get somewhere: they mark both ends and load the whole history. */
module PagingProgress {
  import opened IdLists
  import opened Paging
  import opened PagingRuns
  import opened PagingSteps

  /** One turn: a call for older or newer messages and its answer, or the answer to an older request. */
  datatype Turn =
    | Older(lo: int, hi: int, totalCount: int)
    | Newer(lo: int, hi: int, totalCount: int)
    | Late(j: int, lo: int, hi: int, totalCount: int)

  /** Rows are loaded, and no slice is waited for. */
  ghost predicate Resting(s: System)
  {
    Inv(s) && s.window.rows != [] && !s.window.WaitingForSlice()
  }

  ghost predicate Calls(s: System, t: Turn)
  {
    match t
    case Older(_, _, _) => !s.window.startReached && Allowed(s, LoadMoreHistory)
    case Newer(_, _, _) => !s.window.endReached && Allowed(s, LoadMoreFuture)
    case Late(_, _, _, _) => true
  }

  /** The state in which the answer of the turn comes. */
  ghost function Asked(s: System, t: Turn): System
  {
    match t
    case Older(_, _, _) => Apply(s, LoadMoreHistory)
    case Newer(_, _, _) => Apply(s, LoadMoreFuture)
    case Late(_, _, _, _) => s
  }

  ghost function Answer(s: System, t: Turn): Event
  {
    match t
    case Older(lo, hi, totalCount) => Reply(|s.inFlight|, lo, hi, totalCount)
    case Newer(lo, hi, totalCount) => Reply(|s.inFlight|, lo, hi, totalCount)
    case Late(j, lo, hi, totalCount) => Reply(j, lo, hi, totalCount)
  }

  ghost function After(s: System, t: Turn): System
    requires 0 <= Answer(s, t).j < |Asked(s, t).inFlight|
  {
    Apply(Asked(s, t), Answer(s, t))
  }

  /** The answer brings an older message if there is one and says so if there is none; likewise for newer ones, where
      the chat's last message at the end of the list says as much. */
  ghost predicate Helps(s: System, t: Turn)
    requires s.window.rows != []
  {
    var first, last := s.window.rows[0], s.window.rows[|s.window.rows| - 1];
    match t
    case Older(lo, _, totalCount) =>
      if NothingBelow(s.history, first) then totalCount == 0 else exists h :: h in s.history && lo <= h < first
    case Newer(_, hi, totalCount) =>
      if NothingAbove(s.history, last) then totalCount == 0 || s.lastId == last
      else exists h :: h in s.history && last < h <= hi
    case Late(j, _, _, _) =>
      0 <= j < |s.inFlight| && (s.inFlight[j].kind == UpdateInitial || s.inFlight[j].kind == UpdateReload)
  }

  ghost predicate FairTurn(s: System, t: Turn)
  {
    && s.window.rows != [] && Calls(s, t) && Helps(s, t)
    && 0 <= Answer(s, t).j < |Asked(s, t).inFlight| && Allowed(Asked(s, t), Answer(s, t))
  }

  ghost predicate FairRun(s: System, turns: seq<Turn>)
    decreases |turns|
  {
    turns == [] || (FairTurn(s, turns[0]) && FairRun(After(s, turns[0]), turns[1..]))
  }

  ghost function End(s: System, turns: seq<Turn>): System
    requires FairRun(s, turns)
    decreases |turns|
  {
    if turns == [] then s else End(After(s, turns[0]), turns[1..])
  }

  ghost function Unloaded(s: System): set<int>
  {
    s.history - Elements(s.window.rows)
  }

  ghost function Unmarked(w: Window): nat
  {
    (if w.startReached then 0 else 1) + (if w.endReached then 0 else 1)
  }

  /** How much is left to do; a turn may leave one more reload outstanding. */
  ghost function Potential(s: System): nat
  {
    2 * (|Unloaded(s)| + Unmarked(s.window)) + |s.inFlight|
  }

  /** What a call leaves. */
  ghost predicate Called(s: System, s': System, kind: UpdateType, fromId: int)
  {
    s' == s.(window := s.window.Wait(kind, true), inFlight := s.inFlight + [Request(kind, fromId)])
  }

  lemma {:induction false} CallAsks(s: System, t: Turn)
    requires Resting(s) && Calls(s, t) && !t.Late?
    ensures Inv(Asked(s, t))
    ensures var rows := s.window.rows;
            if t.Older? then Called(s, Asked(s, t), UpdatePreviousSlice, rows[0])
            else Called(s, Asked(s, t), UpdateNextSlice, rows[|rows| - 1])
  {
    StepKeeps(s, if t.Older? then LoadMoreHistory else LoadMoreFuture);
  }

  lemma {:induction false} Grows(history: set<int>, rows: seq<int>, added: seq<int>, h: int)
    requires added != [] && h in history && h in added && h !in rows
    ensures |history - Elements(Insert(rows, added))| < |history - Elements(rows)|
  {
    var less, more := history - Elements(Insert(rows, added)), history - Elements(rows);
    assert forall x :: x in rows || x in added <==> x in Insert(rows, added);
    assert less <= more - {h} && h in more;
    Smaller(less, more - {h});
  }

  lemma {:induction false} Smaller(a: set<int>, b: set<int>)
    requires a <= b
    ensures |a| <= |b|
  {
    assert b == a + (b - a);
  }

  /** An answer leaves no more to load and marks nothing as unreached. */
  lemma {:induction false} AnswerLoads(s: System, e: Event)
    requires Inv(s) && e.Reply? && Possible(s, e)
    ensures var s' := Apply(s, e);
            && s'.history == s.history && |Unloaded(s')| <= |Unloaded(s)| && Unmarked(s'.window) <= Unmarked(s.window)
            && (Accepted(s, e) ==> |Unloaded(s')| < |Unloaded(s)|)
            && |s'.inFlight| == |s.inFlight| - 1 + (if Accepted(s, e) && !Told(s, e) then 1 else 0)
  {
    ReplyEffect(s, e);
    AddedFacts(s, e);
    if Accepted(s, e) {
      var h := AddedBy(s, e)[0];
      assert h in AddedBy(s, e);
      Grows(s.history, s.window.rows, AddedBy(s, e), h);
    }
  }

  /** It goes on resting. */
  lemma {:induction false} RestsAgain(s: System, e: Event)
    requires Inv(s) && e.Reply? && Allowed(s, e) && s.window.rows != []
    requires forall k :: (k == UpdatePreviousSlice || k == UpdateNextSlice) && s.window.Waiting(k) ==>
               k == s.inFlight[e.j].kind
    ensures Resting(Apply(s, e))
  {
    StepKeeps(s, e);
    ReplyEffect(s, e);
  }

  /** A slice that is answered fairly brings something, or marks its end. */
  lemma {:induction false} OlderHelps(s: System, s1: System, t: Turn)
    requires Resting(s) && t.Older? && Helps(s, t) && !s.window.startReached
    requires Called(s, s1, UpdatePreviousSlice, s.window.rows[0]) && Allowed(s1, Answer(s, t))
    ensures Accepted(s1, Answer(s, t)) || Unmarked(Apply(s1, Answer(s, t)).window) < Unmarked(s.window)
  {
    var e, first := Answer(s, t), s.window.rows[0];
    assert s1.inFlight[e.j] == Request(UpdatePreviousSlice, first);
    AddedFacts(s1, e);
    ReplyEffect(s1, e);
    if !NothingBelow(s.history, first) {
      EndsOf(s.window.rows);
      var h :| h in s.history && t.lo <= h < first;
      assert h in AddedBy(s1, e);
    }
  }

  lemma {:induction false} NewerHelps(s: System, s1: System, t: Turn)
    requires Resting(s) && t.Newer? && Helps(s, t) && !s.window.endReached
    requires Called(s, s1, UpdateNextSlice, s.window.rows[|s.window.rows| - 1]) && Allowed(s1, Answer(s, t))
    ensures Accepted(s1, Answer(s, t)) || Unmarked(Apply(s1, Answer(s, t)).window) < Unmarked(s.window)
  {
    var e, last := Answer(s, t), s.window.rows[|s.window.rows| - 1];
    assert s1.inFlight[e.j] == Request(UpdateNextSlice, last);
    AddedFacts(s1, e);
    EndsOf(s.window.rows);
    if !NothingAbove(s.history, last) {
      var h :| h in s.history && last < h <= t.hi;
      assert h in AddedBy(s1, e);
    } else if !Accepted(s1, e) {
      NothingNewer(s1, e, last);
    }
  }

  lemma {:induction false} NothingNewer(s: System, e: Event, last: int)
    requires e.Reply? && Possible(s, e) && s.inFlight[e.j].kind == UpdateNextSlice
    requires s.window.Waiting(UpdateNextSlice) && AddedBy(s, e) == [] && !s.window.endReached
    requires last in s.window.rows && (e.totalCount == 0 || s.lastId == last)
    ensures Unmarked(Apply(s, e).window) < Unmarked(s.window)
  {
    ReplyEffect(s, e);
  }

  /** Every turn leaves less to do. */
  lemma {:induction false} TurnProgress(s: System, t: Turn)
    requires Resting(s) && FairTurn(s, t)
    ensures Resting(After(s, t)) && Potential(After(s, t)) < Potential(s) && After(s, t).history == s.history
  {
    var s1, e := Asked(s, t), Answer(s, t);
    if !t.Late? { CallAsks(s, t); }
    AnswerLoads(s1, e);
    RestsAgain(s1, e);
    match t
    case Older(_, _, _) => OlderHelps(s, s1, t);
    case Newer(_, _, _) => NewerHelps(s, s1, t);
    case Late(j, _, _, _) => LateBringsNoRequest(s, j, e);
  }

  lemma {:induction false} LateBringsNoRequest(s: System, j: int, e: Event)
    requires Resting(s) && 0 <= j < |s.inFlight| && e.Reply? && e.j == j
    requires s.inFlight[j].kind == UpdateInitial || s.inFlight[j].kind == UpdateReload
    ensures Accepted(s, e) ==> Told(s, e)
  {
  }

  /** So there are only so many turns. */
  lemma {:induction false} RunProgress(s: System, turns: seq<Turn>)
    requires Resting(s) && FairRun(s, turns)
    ensures Resting(End(s, turns)) && End(s, turns).history == s.history
    ensures |turns| + Potential(End(s, turns)) <= Potential(s)
    decreases |turns|
  {
    if turns == [] {
    } else {
      TurnProgress(s, turns[0]);
      RunProgress(After(s, turns[0]), turns[1..]);
    }
  }

  /** With both ends marked the whole history is loaded, in order. */
  lemma {:induction false} BothEnds(s: System)
    requires Resting(s) && s.window.startReached && s.window.endReached
    ensures Elements(s.window.rows) == s.history && Ascending(s.window.rows)
  {
    InvMeans(s);
    EndsOf(s.window.rows);
  }

  /** Until then another call can be made, and has a fair answer. */
  lemma {:induction false} MoreTurns(s: System) returns (t: Turn)
    requires Resting(s) && !(s.window.startReached && s.window.endReached)
    ensures !t.Late? && FairTurn(s, t)
  {
    if s.window.endReached {
      t := OlderTurn(s);
    } else {
      t := NewerTurn(s);
    }
  }

  lemma {:induction false} OlderTurn(s: System) returns (t: Turn)
    requires Resting(s) && !s.window.startReached && s.window.endReached
    ensures t.Older? && FairTurn(s, t)
  {
    var first := s.window.rows[0];
    InvMeans(s);
    EndsOf(s.window.rows);
    var lo, hi, totalCount := NextOlder(s.history, first);
    t := Older(lo, hi, totalCount);
    CallAsks(s, t);
    assert Possible(Asked(s, t), Answer(s, t));
  }

  lemma {:induction false} NextOlder(history: set<int>, first: int) returns (lo: int, hi: int, totalCount: int)
    requires first in history
    ensures hi <= first && Answers(history, Request(UpdatePreviousSlice, first), lo, hi)
    ensures totalCount == 0 ==> Slice(history, lo, hi) == []
    ensures if NothingBelow(history, first) then totalCount == 0 else exists h :: h in history && lo <= h < first
  {
    if h :| h in history && h < first {
      var g := GreatestUpTo(history, first - 1, h);
      SliceFacts(history, g, first);
      assert g in Slice(history, g, first);
      lo, hi, totalCount := g, first, 1;
    } else {
      lo, hi, totalCount := first, first - 1, 0;
    }
  }

  lemma {:induction false} NewerTurn(s: System) returns (t: Turn)
    requires Resting(s) && !s.window.endReached
    ensures t.Newer? && FairTurn(s, t)
  {
    var last := s.window.rows[|s.window.rows| - 1];
    InvMeans(s);
    EndsOf(s.window.rows);
    var lo, hi, totalCount := NextNewer(s.history, last, s.top);
    t := Newer(lo, hi, totalCount);
    CallAsks(s, t);
    assert Possible(Asked(s, t), Answer(s, t));
  }

  lemma {:induction false} NextNewer(history: set<int>, last: int, top: int) returns (lo: int, hi: int, totalCount: int)
    requires last in history && last <= top && forall h :: h in history ==> h <= top
    ensures hi <= top && Answers(history, Request(UpdateNextSlice, last), lo, hi)
    ensures totalCount == 0 ==> Slice(history, lo, hi) == []
    ensures if NothingAbove(history, last) then totalCount == 0 else exists h :: h in history && last < h <= hi
  {
    if h :| h in history && last < h {
      var g := LeastFrom(history, last + 1, h);
      SliceFacts(history, last, g);
      assert g in Slice(history, last, g);
      lo, hi, totalCount := last, g, 1;
    } else {
      lo, hi, totalCount := last + 1, last, 0;
    }
  }

  lemma {:induction false} AnchorAloneAddsNothing(s: System, e: Event, first: int)
    requires e.Reply? && first in s.window.rows && Slice(s.history, e.lo, e.hi) == [first]
    ensures AddedBy(s, e) == []
  {
    AddedFacts(s, e);
    SliceFacts(s.history, e.lo, e.hi);
    assert forall h :: h in Slice(s.history, e.lo, e.hi) <==> h in [first];
    NotEmptyHas(AddedBy(s, e));
  }

  /** An answer that repeats the anchor alone does not mark the start: apart from the end's mark the window is as before
      the call, which can be made again. */
  lemma {:induction false} AnchorAloneMarksNothing(s: System, t: Turn)
    requires Resting(s) && t.Older? && !s.window.startReached && Allowed(s, LoadMoreHistory)
    requires Allowed(Asked(s, t), Answer(s, t)) && Slice(s.history, t.lo, t.hi) == [s.window.rows[0]]
    ensures var w, w' := s.window, After(s, t).window;
            w'.rows == w.rows && !w'.startReached && !w'.WaitingForSlice() && After(s, t).inFlight == s.inFlight
  {
    var s1, e := Asked(s, t), Answer(s, t);
    CallAsks(s, t);
    AnchorAloneAddsNothing(s1, e, s.window.rows[0]);
    ReplyEffect(s1, e);
    AnsweredInVain(s, s1, After(s, t), e);
  }

  lemma {:induction false} AnsweredInVain(s: System, s1: System, s': System, e: Event)
    requires Resting(s) && Called(s, s1, UpdatePreviousSlice, s.window.rows[0]) && !s.window.startReached
    requires e.Reply? && e.j == |s.inFlight| && e.totalCount != 0 && Replied(s1, s', e.j, [], [])
    requires FlagsAfter(s1, e, s')
    ensures s'.window.rows == s.window.rows && !s'.window.startReached && !s'.window.WaitingForSlice()
    ensures s'.inFlight == s.inFlight
  {
    assert s1.inFlight[..e.j] + s1.inFlight[e.j + 1..] + [] == s.inFlight;
  }

  /** Calls for more, answered fairly, load the whole history: any sequence of such turns is bounded in length, and once
      there is no call left to make, both ends are marked and the list is the whole history. */
  lemma {:induction false} EverythingLoaded(s: System, turns: seq<Turn>)
    requires Resting(s) && FairRun(s, turns)
    ensures |turns| <= Potential(s)
    ensures var s' := End(s, turns);
            (forall t: Turn :: !t.Late? ==> !FairTurn(s', t)) ==>
              && s'.window.startReached && s'.window.endReached
              && Ascending(s'.window.rows) && Elements(s'.window.rows) == s.history
  {
    var s' := End(s, turns);
    RunProgress(s, turns);
    if s'.window.startReached && s'.window.endReached {
      BothEnds(s');
    } else {
      var t := MoreTurns(s');
      assert FairTurn(s', t);
    }
  }
}
