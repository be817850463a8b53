/** When exactly a reset of the window, and a previous slice that is asked for, can be followed by a spoilt list. */
module PagingExact {
  import opened IdLists
  import opened Lists
  import opened Paging
  import opened PagingRuns
  import opened PagingSteps

  /** Every disciplined continuation is gap-free. */
  ghost predicate StaysGapFree(s: System)
  {
    forall events :: AllowedRun(s, events) ==> GapFree(Run(s, events))
  }

  lemma {:induction false} InvStays(s: System)
    requires Inv(s)
    ensures StaysGapFree(s)
  {
    forall events | AllowedRun(s, events) ensures GapFree(Run(s, events)) {
      RunKeeps(s, events);
      InvMeans(Run(s, events));
    }
  }

  lemma {:induction false} BrokenNow(s: System)
    requires !GapFree(s)
    ensures !StaysGapFree(s)
  {
    assert AllowedRun(s, []) && Run(s, []) == s;
  }

  lemma {:induction false} BreaksLater(s: System, e: Event)
    requires Allowed(s, e) && !StaysGapFree(Apply(s, e))
    ensures !StaysGapFree(s)
  {
    var events :| AllowedRun(Apply(s, e), events) && !GapFree(Run(Apply(s, e), events));
    var run := [e] + events;
    assert run[0] == e && run[1..] == events;
    assert AllowedRun(s, run) && Run(s, run) == Run(Apply(s, e), events);
  }

  lemma {:induction false} Breaks(s: System, e: Event)
    requires Allowed(s, e) && !GapFree(Apply(s, e))
    ensures !StaysGapFree(s)
  {
    BrokenNow(Apply(s, e));
    BreaksLater(s, e);
  }

  lemma {:induction false} UnrollThree(s: System, s1: System, s2: System, s3: System, es: seq<Event>)
    requires |es| == 3 && Allowed(s, es[0]) && s1 == Apply(s, es[0])
    requires Allowed(s1, es[1]) && s2 == Apply(s1, es[1]) && Allowed(s2, es[2]) && s3 == Apply(s2, es[2])
    ensures AllowedRun(s, es) && Run(s, es) == s3
  {
    assert es[1..][1..] == es[2..] && es[2..][1..] == [];
    assert AllowedRun(s3, []) && Run(s3, []) == s3;
    assert AllowedRun(s2, es[2..]) && Run(s2, es[2..]) == s3;
    assert AllowedRun(s1, es[1..]) && Run(s1, es[1..]) == s3;
  }

  lemma {:induction false} UnrollFour(s: System, s1: System, s2: System, s3: System, s4: System, es: seq<Event>)
    requires |es| == 4 && Allowed(s, es[0]) && s1 == Apply(s, es[0])
    requires Allowed(s1, es[1]) && s2 == Apply(s1, es[1]) && Allowed(s2, es[2]) && s3 == Apply(s2, es[2])
    requires Allowed(s3, es[3]) && s4 == Apply(s3, es[3])
    ensures AllowedRun(s, es) && Run(s, es) == s4
  {
    assert es[1..][0] == es[1] && es[1..][1] == es[2] && es[1..][2] == es[3];
    UnrollThree(s1, s2, s3, s4, es[1..]);
  }

  // Slices of one message

  lemma {:induction false} OnlyOne(history: set<int>, lo: int, hi: int, g: int)
    requires g in history && lo <= g <= hi && NothingBetween(history, lo - 1, g) && NothingBetween(history, g, hi + 1)
    ensures Slice(history, lo, hi) == [g]
  {
    SliceFacts(history, lo, hi);
    var slice := Slice(history, lo, hi);
    forall h ensures h in slice <==> h in [g] {
      if h in slice { assert lo - 1 < h < hi + 1; }
    }
    AscendingUnique(slice, [g]);
  }

  // Replies in these runs

  /** A short slice is followed by a reload, which is waited for. */
  lemma {:induction false} AsksForMore(s: System, e: Event)
    requires e.Reply? && 0 <= e.j < |s.inFlight| && Accepted(s, e)
    requires |Slice(s.history, e.lo, e.hi)| + |AddedBy(s, e)| < 10 && s.inFlight[e.j].kind != UpdateReload
    ensures Apply(s, e).window.Waiting(UpdateReload)
    ensures Apply(s, e).inFlight
            == s.inFlight[..e.j] + s.inFlight[e.j + 1..] + [Request(UpdateReload, AddedBy(s, e)[0])]
  {
    AddedFacts(s, e);
  }

  /** A reply that brings the message `x`: what comes in, and that it is inserted. */
  lemma {:induction false} TakenIn(s: System, e: Event, x: int) returns (added: seq<int>)
    requires e.Reply? && 0 <= e.j < |s.inFlight| && (s.window.Waiting(s.inFlight[e.j].kind) || s.window.rows == [])
    requires x in s.history && e.lo <= x <= e.hi && x !in s.window.rows && e.totalCount != 0
    ensures Ascending(added) && added != []
    ensures forall h :: h in added <==> h in s.history && e.lo <= h <= e.hi && h !in s.window.rows
    ensures Apply(s, e).window.rows == Insert(s.window.rows, added) && Apply(s, e).history == s.history
    ensures added == AddedBy(s, e) && Slice(s.history, e.lo, e.hi) != []
  {
    added := AddedBy(s, e);
    AddedFacts(s, e);
    assert x in added;
    ReplyEffect(s, e);
  }

  /** Around one row: a reload brings messages on its other side, or on both sides. */
  lemma {:induction false} LateReload(s: System, j: int, g: int, x: int, m: int)
    requires s.window.rows == [g] && s.window.Waiting(UpdateReload) && 0 <= j < |s.inFlight|
    requires s.inFlight[j].kind == UpdateReload && s.inFlight[j].fromId <= s.top
    requires x in s.history && x <= s.inFlight[j].fromId && x != g && m in s.history
    requires s.inFlight[j].fromId < m < g || g < m < x || x < g < m <= s.inFlight[j].fromId
    ensures var e := Reply(j, x, s.inFlight[j].fromId, 1);
            Allowed(s, e) && !GapFree(Apply(s, e))
  {
    var e := Reply(j, x, s.inFlight[j].fromId, 1);
    var added := TakenIn(s, e, x);
    Spoilt(g, added, x, s.inFlight[j].fromId, m);
    RowsSpoilt(Apply(s, e), m);
  }

  lemma {:induction false} Spoilt(g: int, added: seq<int>, x: int, from: int, m: int)
    requires Ascending(added) && x in added && (forall h :: h in added ==> x <= h <= from)
    requires from < m < g || g < m < x || (x < g < m && m in added)
    ensures var rows := Insert([g], added);
            !Ascending(rows) || (m !in rows && rows[0] <= m <= rows[|rows| - 1])
  {
    EndsOf(added);
    InsertKeepsOrder([g], added);
  }

  lemma {:induction false} RowsSpoilt(s: System, m: int)
    requires var rows := s.window.rows;
             rows != [] && m in s.history && (!Ascending(rows) || (m !in rows && rows[0] <= m <= rows[|rows| - 1]))
    ensures !GapFree(s)
  {
  }

  // A reload that does not adjoin the target of a reset

  /** A window that has just been reset around `a`. */
  ghost predicate Reset(s: System, s1: System, a: int)
  {
    s1 == s.(window := CLEARED, inFlight := s.inFlight + [Request(UpdateInitial, a)])
  }

  ghost predicate Cleared(s: System, s1: System)
  {
    s1 == s.(window := CLEARED, inFlight := s1.inFlight)
  }

  lemma {:induction false} TwoNewMessages(s: System, s1: System) returns (s2: System, s3: System)
    requires Sane(s) && Cleared(s, s1)
    ensures s2 == Apply(s1, NewMessage(s.top + 1)) && s3 == Apply(s2, NewMessage(s.top + 2))
    ensures Allowed(s1, NewMessage(s.top + 1)) && Allowed(s2, NewMessage(s.top + 2))
    ensures s3 == System(CLEARED, s.history + {s.top + 1, s.top + 2}, s1.inFlight, s.top + 2, s.top + 2)
  {
    s2 := Apply(s1, NewMessage(s.top + 1));
    s3 := Apply(s2, NewMessage(s.top + 2));
    assert s.history + {s.top + 1} + {s.top + 2} == s.history + {s.top + 1, s.top + 2};
  }

  lemma {:induction false} FirstPossible(s: System, j: int, a: int, g: int, lo: int, hi: int)
    requires 0 <= j < |s.inFlight| && s.inFlight[j] == Request(UpdateInitial, a)
    requires lo <= hi <= s.top && (if a == 0 then NothingAbove(s.history, hi) else lo <= a <= hi)
    requires Slice(s.history, lo, hi) == [g]
    ensures Allowed(s, Reply(j, lo, hi, 1))
  {
  }

  /** The window after a first slice of one message. */
  ghost function OneRow(w: Window, g: int): Window
  {
    w.(rows := [g]).Wait(UpdateReload, true).Wait(UpdateInitial, false)
  }

  lemma {:induction false} FirstTaken(s: System, j: int, a: int, g: int, lo: int, hi: int)
    requires 0 <= j < |s.inFlight| && s.inFlight[j] == Request(UpdateInitial, a)
    requires s.window.rows == [] && Slice(s.history, lo, hi) == [g]
    ensures Apply(s, Reply(j, lo, hi, 1))
            == s.(window := OneRow(s.window, g),
                  inFlight := s.inFlight[..j] + s.inFlight[j + 1..] + [Request(UpdateReload, g)])
  {
    var e := Reply(j, lo, hi, 1);
    assert s.history - Elements(s.window.rows) == s.history;
    assert AddedBy(s, e) == [g];
    assert Receive(s, e) == Outcome(OneRow(s.window, g), [Request(UpdateReload, g)]);
  }

  /** A first slice brings one message; the other requests stay outstanding. */
  lemma {:induction false} FirstAlone(s: System, j: int, a: int, g: int, lo: int, hi: int)
    requires s.window.rows == [] && 0 <= j < |s.inFlight| && s.inFlight[j] == Request(UpdateInitial, a)
    requires lo <= hi <= s.top && (if a == 0 then NothingAbove(s.history, hi) else lo <= a <= hi)
    requires Slice(s.history, lo, hi) == [g]
    ensures var e := Reply(j, lo, hi, 1);
            var s' := Apply(s, e);
            && Allowed(s, e) && s' == s.(window := OneRow(s.window, g), inFlight := s'.inFlight)
            && (forall r :: r in s'.inFlight ==> r in s.inFlight || r.kind == UpdateReload)
            && forall r :: r in s.inFlight && r != s.inFlight[j] ==> r in s'.inFlight
  {
    FirstPossible(s, j, a, g, lo, hi);
    FirstTaken(s, j, a, g, lo, hi);
    var sent := [Request(UpdateReload, g)];
    StillOutstanding(s.inFlight, j, sent);
    forall r | r in s.inFlight && r != s.inFlight[j] ensures r in s.inFlight[..j] + s.inFlight[j + 1..] + sent {
      StaysBehind(s.inFlight, j, r);
    }
  }

  /** What the first slice and the old reload bring, and the message that is then missing or out of order. */
  datatype Spoiler = Spoiler(lo: int, hi: int, g: int, x: int, m: int)

  ghost predicate Spoils(history: set<int>, top: int, a: int, from: int, p: Spoiler)
  {
    && p.lo <= p.hi <= top && (if a == 0 then NothingAbove(history, p.hi) else p.lo <= a <= p.hi)
    && Slice(history, p.lo, p.hi) == [p.g]
    && p.x in history && p.x <= from && p.x != p.g && p.m in history
    && (from < p.m < p.g || p.g < p.m < p.x || p.x < p.g < p.m <= from)
  }

  lemma {:induction false} SpoilerRun(s: System, s1: System, j: int, a: int, r: Request, p: Spoiler)
    requires Sane(s) && Cleared(s, s1) && IsFirst(s1.inFlight, j) && s1.inFlight[j].fromId == a
    requires r in s.inFlight && r in s1.inFlight && r.kind == UpdateReload
    requires Spoils(s.history + {s.top + 1, s.top + 2}, s.top + 2, a, r.fromId, p)
    ensures !StaysGapFree(s1)
  {
    var s2, s3 := TwoNewMessages(s, s1);
    var e := Reply(j, p.lo, p.hi, 1);
    FirstAlone(s3, j, a, p.g, p.lo, p.hi);
    var s4 := Apply(s3, e);
    var k := IndexOf(s4.inFlight, r);
    LateReload(s4, k, p.g, p.x, p.m);
    Breaks(s4, Reply(k, p.x, r.fromId, 1));
    BreaksLater(s3, e);
    BreaksLater(s2, NewMessage(s.top + 2));
    BreaksLater(s1, NewMessage(s.top + 1));
  }

  /** Below the target: the first slice starts at it, the reload ends below the message between. */
  lemma {:induction false} SpoilerBelow(history: set<int>, top: int, a: int, from: int, h: int, m: int)
    returns (p: Spoiler)
    requires top in history && a <= top && a != 0 && NothingAbove(history, top)
    requires h in history && h <= from && m in history && from < m < a
    ensures Spoils(history, top, a, from, p)
  {
    var g := LeastFrom(history, a, top);
    OnlyOne(history, a, g, g);
    p := Spoiler(a, g, g, h, m);
  }

  /** The slice of one message next to the target. */
  lemma {:induction false} NearestTo(history: set<int>, top: int, a: int) returns (lo: int, hi: int, g: int)
    requires top in history && a <= top && NothingAbove(history, top)
    ensures lo <= a <= hi <= top && lo <= hi && Slice(history, lo, hi) == [g] && g in history
    ensures (g <= a && NothingBetween(history, g, a + 1)) || NothingBelow(history, g)
  {
    if b :| b in history && b <= a {
      g := GreatestUpTo(history, a, b);
      lo, hi := g, a;
    } else {
      g := LeastFrom(history, a, top);
      lo, hi := a, g;
    }
    OnlyOne(history, lo, hi, g);
  }

  lemma {:induction false} SpoilerAbove(history: set<int>, top: int, a: int, from: int, z': int, x: int, y: int, z: int)
    returns (p: Spoiler)
    requires top in history && a <= top && a != 0 && NothingAbove(history, top)
    requires z' in history && a < z' <= from
    requires x in history && y in history && z in history && x < y < z <= from
    ensures Spoils(history, top, a, from, p)
  {
    var lo, hi, g := NearestTo(history, top, a);
    if g < y {
      p := Spoiler(lo, hi, g, z, y);
    } else {
      p := Spoiler(lo, hi, g, x, z');
    }
  }

  lemma {:induction false} ApartBreaks(s: System, s1: System, j: int, a: int, r: Request)
    requires Sane(s) && Cleared(s, s1) && IsFirst(s1.inFlight, j) && s1.inFlight[j].fromId == a && a <= s.top
    requires r in s.inFlight && r in s1.inFlight && Live(s.history, r)
    requires a == 0 || !Adjoins(s.history, a, r.fromId)
    ensures !StaysGapFree(s1)
  {
    var from, top, history := r.fromId, s.top + 2, s.history + {s.top + 1, s.top + 2};
    var h :| h in s.history && h <= from;
    var p;
    if a == 0 {
      OnlyOne(history, top, top, top);
      p := Spoiler(top, top, top, h, s.top + 1);
    } else if from < a {
      var m :| m in s.history && from < m < a;
      p := SpoilerBelow(history, top, a, from, h, m);
    } else {
      var z' :| z' in s.history && a < z' < from + 1;
      var x, y, z :| x in s.history && y in s.history && z in s.history && x < y < z && z <= from;
      p := SpoilerAbove(history, top, a, from, z', x, y, z);
    }
    SpoilerRun(s, s1, j, a, r, p);
  }

  // Two reloads astride the target

  lemma {:induction false} Adjacent(history: set<int>, b: int, y: int)
    requires b in history && y in history && b < y && NothingBetween(history, b, y)
    ensures Slice(history, b, y) == [b, y]
  {
    SliceFacts(history, b, y);
    var slice := Slice(history, b, y);
    forall h ensures h in slice <==> h in [b, y] {}
    AscendingUnique(slice, [b, y]);
  }

  /** The window is ascending, starts at `y`, reaches no further than `from`, and waits for nothing. */
  ghost predicate OnlyUpTo(s: System, s': System, y: int, from: int)
  {
    var rows := s'.window.rows;
    && rows != [] && Ascending(rows) && rows[0] == y && (forall h :: h in rows ==> h <= from)
    && !s'.window.startReached && !s'.window.endReached && !s'.window.Waiting(UpdatePreviousSlice)
    && s'.history == s.history && s'.top == s.top && s'.lastId == s.lastId
  }

  /** The lower reload overtakes the first slice: its rows start at `y`, below the target. */
  lemma {:induction false} LowerOvertakes(s: System, i: int, y: int, z: int)
    requires s.window == CLEARED && 0 <= i < |s.inFlight| && s.inFlight[i].kind == UpdateReload
    requires y in s.history && z in s.history && y < z <= s.inFlight[i].fromId <= s.top
    requires !NothingAbove(s.history, s.inFlight[i].fromId) && NewestIfKnown(s.history, s.lastId)
    ensures var e := Reply(i, y, s.inFlight[i].fromId, 1);
            var s' := Apply(s, e);
            && Allowed(s, e) && OnlyUpTo(s, s', y, s.inFlight[i].fromId)
            && s'.inFlight == s.inFlight[..i] + s.inFlight[i + 1..] && z in s'.window.rows
  {
    var e := Reply(i, y, s.inFlight[i].fromId, 1);
    var s' := Apply(s, e);
    var added := TakenIn(s, e, y);
    LowerEffect(s, s', e, added, y, z);
    assert s'.inFlight == s.inFlight[..i] + s.inFlight[i + 1..];
  }

  lemma {:induction false} LowerEffect(s: System, s': System, e: Event, added: seq<int>, y: int, z: int)
    requires s.window == CLEARED && e.Reply? && 0 <= e.j < |s.inFlight| && s.inFlight[e.j].kind == UpdateReload
    requires s' == Apply(s, e) && e.totalCount != 0 && added == AddedBy(s, e) && y in s.history && z in s.history
    requires e.lo == y < z <= e.hi && Ascending(added)
    requires forall h :: h in added <==> h in s.history && y <= h <= e.hi
    requires !NothingAbove(s.history, e.hi) && NewestIfKnown(s.history, s.lastId)
    ensures OnlyUpTo(s, s', y, e.hi) && s'.inFlight == s.inFlight[..e.j] + s.inFlight[e.j + 1..] + []
    ensures z in s'.window.rows
  {
    ReplyEffect(s, e);
    assert y in added;
    LowerTaken(s, s', e.j, added, y, z, e.hi, Receive(s, e).sent);
  }

  lemma {:induction false} LowerTaken(s: System, s': System, j: int, added: seq<int>, y: int, z: int, hi: int,
        sent: seq<Request>)
    requires s.window == CLEARED && 0 <= j < |s.inFlight| && s.inFlight[j].kind == UpdateReload
    requires y in s.history && z in s.history && y < z <= hi
    requires Ascending(added) && forall h :: h in added <==> h in s.history && y <= h <= hi
    requires !NothingAbove(s.history, hi) && NewestIfKnown(s.history, s.lastId)
    requires Replied(s, s', j, added, sent) && !s'.window.startReached
    requires s'.window.endReached ==> s.lastId in s'.window.rows
    ensures OnlyUpTo(s, s', y, hi) && s'.inFlight == s.inFlight[..j] + s.inFlight[j + 1..] + []
    ensures z in s'.window.rows
  {
    assert y in added && z in added;
    StartsAt(added, y);
    NewestAbove(s.history, s.lastId, hi);
    assert s'.window.rows == added;
  }

  lemma {:induction false} StartsAt(added: seq<int>, y: int)
    requires Ascending(added) && y in added && forall h :: h in added ==> y <= h
    ensures added[0] == y
  {
    EndsOf(added);
  }

  lemma {:induction false} NewestAbove(history: set<int>, lastId: int, hi: int)
    requires NewestIfKnown(history, lastId) && !NothingAbove(history, hi)
    ensures lastId in history ==> hi < lastId
  {
  }

  /** A previous slice is asked for. */
  lemma {:induction false} OlderAsked(s: System, y: int, z: int)
    requires s.window.rows != [] && Ascending(s.window.rows) && s.window.rows[0] == y && z in s.window.rows && y < z
    requires !s.window.startReached && !s.window.Waiting(UpdatePreviousSlice)
    requires forall r :: r in s.inFlight ==> r.kind != UpdatePreviousSlice
    ensures Allowed(s, LoadMoreHistory)
    ensures Apply(s, LoadMoreHistory)
            == s.(window := s.window.Wait(UpdatePreviousSlice, true),
                  inFlight := s.inFlight + [Request(UpdatePreviousSlice, y)])
  {
    EndsOf(s.window.rows);
  }

  /** A window to which the next older message can be added. */
  ghost predicate WaitsForOlder(s: System, old': seq<Request>, b: int)
  {
    var rows := s.window.rows;
    && rows != [] && Ascending(rows) && b in s.history && b < rows[0] && NothingBetween(s.history, b, rows[0])
    && rows[0] in s.history && rows[0] <= s.top
    && s.inFlight == old' + [Request(UpdatePreviousSlice, rows[0])] && s.window.Waiting(UpdatePreviousSlice)
  }

  lemma {:induction false} OlderAdded(s: System, old': seq<Request>, b: int)
    requires WaitsForOlder(s, old', b)
    ensures var e := Reply(|old'|, b, s.window.rows[0], 1);
            Slice(s.history, e.lo, e.hi) == [b, s.window.rows[0]] && AddedBy(s, e) == [b]
  {
    var rows := s.window.rows;
    var e := Reply(|old'|, b, rows[0], 1);
    Adjacent(s.history, b, rows[0]);
    AddedFacts(s, e);
    EndsOf(rows);
    forall h ensures h in AddedBy(s, e) <==> h in [b] {}
    AscendingUnique(AddedBy(s, e), [b]);
  }

  /** It brings one message, and a reload is waited for. */
  lemma {:induction false} OlderComes(s: System, old': seq<Request>, b: int)
    requires WaitsForOlder(s, old', b)
    ensures var e := Reply(|old'|, b, s.window.rows[0], 1);
            var s' := Apply(s, e);
            && Allowed(s, e) && s'.window.rows == [b] + s.window.rows && s'.window.Waiting(UpdateReload)
            && s'.history == s.history && s'.top == s.top && s'.inFlight == old' + [Request(UpdateReload, b)]
  {
    var e := Reply(|old'|, b, s.window.rows[0], 1);
    OlderAdded(s, old', b);
    EndsOf(s.window.rows);
    AsksForMore(s, e);
    ReplyEffect(s, e);
    assert s.inFlight[..|old'|] == old' && s.inFlight[|old'| + 1..] == [];
  }

  lemma {:induction false} AroundRows(rows: seq<int>, added: seq<int>, h: int, n: int)
    requires rows != [] && Ascending(rows) && Ascending(added) && h in added && n in added
    requires h < rows[0] && rows[|rows| - 1] < n
    ensures !Ascending(Insert(rows, added))
  {
    EndsOf(added);
    InsertKeepsOrder(rows, added);
  }

  /** The upper reload brings a message on each side. */
  lemma {:induction false} UpperSpoils(s: System, k: int, w: int, a: int)
    requires s.window.rows != [] && s.window.Waiting(UpdateReload) && 0 <= k < |s.inFlight|
    requires s.inFlight[k].kind == UpdateReload && w in s.history && a in s.history
    requires w < s.window.rows[0] && s.window.rows[|s.window.rows| - 1] < a <= s.inFlight[k].fromId <= s.top
    requires Ascending(s.window.rows)
    ensures var e := Reply(k, w, s.inFlight[k].fromId, 1);
            Allowed(s, e) && !GapFree(Apply(s, e))
  {
    var from, rows := s.inFlight[k].fromId, s.window.rows;
    var e := Reply(k, w, from, 1);
    EndsOf(rows);
    var added := TakenIn(s, e, w);
    AroundRows(rows, added, w, a);
  }

  lemma {:induction false} IndexOf(q: seq<Request>, r: Request) returns (i: int)
    requires r in q
    ensures 0 <= i < |q| && q[i] == r
  {
    i :| 0 <= i < |q| && q[i] == r;
  }

  lemma {:induction false} FourBelow(history: set<int>, from: int) returns (w: int, x: int, y: int, z: int)
    requires !AtMostThree(history, from)
    ensures w in history && x in history && y in history && z in history && w < x < y < z <= from
  {
    w, x, y, z :| w in history && x in history && y in history && z in history && w < x < y < z && z <= from;
  }

  lemma {:induction false} AstrideBreaks(s: System, s1: System, a: int, lower: Request, upper: Request)
    requires Sane(s) && Cleared(s, s1) && (forall r :: r in s1.inFlight ==> r.kind != UpdatePreviousSlice)
    requires a in s.history && lower in s1.inFlight && upper in s1.inFlight && Astride(s.history, a, lower, upper)
    requires upper.fromId <= s.top && !AtMostThree(s.history, lower.fromId)
    ensures !StaysGapFree(s1)
  {
    var i := IndexOf(s1.inFlight, lower);
    var w, x, y, z := FourBelow(s.history, lower.fromId);
    LowerOvertakes(s1, i, y, z);
    var e := Reply(i, y, lower.fromId, 1);
    StaysBehind(s1.inFlight, i, upper);
    StillOutstanding(s1.inFlight, i, []);
    AstrideGoesOn(s1, Apply(s1, e), e, a, w, x, y, z, lower, upper);
  }

  lemma {:induction false} StaysBehind(q: seq<Request>, i: int, r: Request)
    requires 0 <= i < |q| && r in q && q[i] != r
    ensures r in q[..i] + q[i + 1..] && q[..i] + q[i + 1..] + [] == q[..i] + q[i + 1..]
  {
    var k :| 0 <= k < |q| && q[k] == r;
    assert (q[..i] + q[i + 1..])[if k < i then k else k - 1] == r;
  }

  lemma {:induction false} AstrideGoesOn(s1: System, s2: System, e: Event, a: int, w: int, x: int, y: int, z: int,
        lower: Request, upper: Request)
    requires Allowed(s1, e) && s2 == Apply(s1, e) && OnlyUpTo(s1, s2, y, lower.fromId) && z in s2.window.rows
    requires upper in s2.inFlight && upper.kind == UpdateReload
    requires forall r :: r in s2.inFlight ==> r.kind != UpdatePreviousSlice
    requires a in s1.history && lower.fromId < a <= upper.fromId <= s1.top
    requires w in s1.history && x in s1.history && y in s1.history && w < x < y < z && y <= lower.fromId
    ensures !StaysGapFree(s1)
  {
    OlderAsked(s2, y, z);
    var s3 := Apply(s2, LoadMoreHistory);
    var b := GreatestUpTo(s1.history, y - 1, x);
    OlderComes(s3, s2.inFlight, b);
    var e3 := Reply(|s2.inFlight|, b, y, 1);
    var e4 := UpperAnswers(s2, s3, Apply(s3, e3), b, a, w, lower, upper);
    Breaks(Apply(s3, e3), e4);
    BreaksLater(s3, e3);
    BreaksLater(s2, LoadMoreHistory);
    BreaksLater(s1, e);
  }

  lemma {:induction false} UpperAnswers(s2: System, s3: System, s4: System, b: int, a: int, w: int,
        lower: Request, upper: Request) returns (e: Event)
    requires upper in s2.inFlight && upper.kind == UpdateReload && s3.window.rows == s2.window.rows
    requires var rows := s2.window.rows;
             rows != [] && Ascending(rows) && b < rows[0] && forall h :: h in rows ==> h <= lower.fromId
    requires s4.window.rows == [b] + s3.window.rows && s4.window.Waiting(UpdateReload)
    requires s4.inFlight == s2.inFlight + [Request(UpdateReload, b)]
    requires w in s4.history && w < b && a in s4.history && lower.fromId < a <= upper.fromId <= s4.top
    ensures Allowed(s4, e) && !GapFree(Apply(s4, e))
  {
    var k := IndexOf(s2.inFlight, upper);
    assert s4.inFlight[k] == upper;
    EndsOf(s2.window.rows);
    UpperSpoils(s4, k, w, a);
    e := Reply(k, w, upper.fromId, 1);
  }

  // Two first slices

  /** One first slice has come and its row is gone again; another is outstanding, and a next slice behind the row. */
  ghost predicate Overtaken(s: System, p: int, g: int)
  {
    && s.window.rows == [] && !s.window.endReached && s.window.Waiting(UpdateNextSlice)
    && Request(UpdateInitial, p) in s.inFlight && Request(UpdateNextSlice, g) in s.inFlight
  }

  lemma {:induction false} FirstGone(s: System, j: int, p: int, q: int, g: int, lo: int, hi: int) returns (s': System)
    requires s.window == CLEARED && 0 <= j < |s.inFlight| && s.inFlight[j] == Request(UpdateInitial, q)
    requires Request(UpdateInitial, p) in s.inFlight && p != q && 0 !in s.history
    requires forall r :: r in s.inFlight ==> r.kind != UpdatePreviousSlice
    requires 0 <= s.top && lo <= hi <= s.top && (if q == 0 then NothingAbove(s.history, hi) else lo <= q <= hi)
    requires Slice(s.history, lo, hi) == [g]
    ensures Overtaken(s', p, g) && s'.history == s.history - {g} && s'.top == s.top
    ensures !StaysGapFree(s') ==> !StaysGapFree(s)
  {
    var e := Reply(j, lo, hi, 1);
    FirstAlone(s, j, q, g, lo, hi);
    var s1 := Apply(s, e);
    var s2 := Apply(s1, LoadMoreFuture);
    s' := RowGone(s1, s2, g);
    if !StaysGapFree(s') {
      BreaksLater(s2, Deleted([g], 0));
      BreaksLater(s1, LoadMoreFuture);
      BreaksLater(s, e);
    }
  }

  lemma {:induction false} RowGone(s: System, s1: System, g: int) returns (s2: System)
    requires s.window == OneRow(CLEARED, g) && s1 == Apply(s, LoadMoreFuture) && 0 !in s.history && 0 <= s.top
    requires forall r :: r in s.inFlight ==> r.kind != UpdatePreviousSlice
    ensures Allowed(s1, Deleted([g], 0)) && s2 == Apply(s1, Deleted([g], 0))
    ensures s2.window.rows == [] && !s2.window.endReached && s2.window.Waiting(UpdateNextSlice)
    ensures s2.inFlight == s.inFlight + [Request(UpdateNextSlice, g)]
    ensures s2.history == s.history - {g} && s2.top == s.top
  {
    assert Reverse([g]) == [g] && Elements([g]) == {g};
    DeletedRows([g], [g]);
    s2 := Apply(s1, Deleted([g], 0));
    NotEmptyHas(s2.window.rows);
  }

  /** The other first slice brings a message below the missing one, the next slice goes on above it. */
  lemma {:induction false} NextSpoils(s: System, p: int, g: int, lo: int, hi: int, x: int, m: int)
    requires Overtaken(s, p, g) && g < s.top && s.top in s.history && p != 0
    requires lo <= p <= hi <= s.top && Slice(s.history, lo, hi) == [x]
    requires x in s.history && m in s.history && x < m < g
    ensures !StaysGapFree(s)
  {
    var i := IndexOf(s.inFlight, Request(UpdateInitial, p));
    var e := Reply(i, lo, hi, 1);
    FirstAlone(s, i, p, x, lo, hi);
    var s' := Apply(s, e);
    var k := IndexOf(s'.inFlight, Request(UpdateNextSlice, g));
    NextLeavesOut(s', k, g, x, m);
    Breaks(s', Reply(k, g, s.top, 1));
    BreaksLater(s, e);
  }

  lemma {:induction false} NextLeavesOut(s: System, k: int, g: int, x: int, m: int)
    requires s.window.rows == [x] && s.window.Waiting(UpdateNextSlice)
    requires 0 <= k < |s.inFlight| && s.inFlight[k] == Request(UpdateNextSlice, g)
    requires g < s.top && s.top in s.history && m in s.history && x < m < g
    ensures var e := Reply(k, g, s.top, 1);
            Allowed(s, e) && !GapFree(Apply(s, e))
  {
    var e := Reply(k, g, s.top, 1);
    var added := TakenIn(s, e, s.top);
    LeavesOut(x, added, g, s.top, m);
    RowsSpoilt(Apply(s, e), m);
  }

  lemma {:induction false} LeavesOut(x: int, added: seq<int>, g: int, top: int, m: int)
    requires Ascending(added) && top in added && (forall h :: h in added ==> g <= h) && x < m < g < top
    ensures var rows := Insert([x], added);
            m !in rows && rows[0] <= m <= rows[|rows| - 1]
  {
    EndsOf(added);
    var rows := Insert([x], added);
    assert added[0] in added && rows == [x] + added && rows[|rows| - 1] == added[|added| - 1];
  }

  /** The slice of one message that the upper first slice brings after three new messages. */
  lemma {:induction false} UpperFirst(history: set<int>, top: int, q: int) returns (lo: int, hi: int, g: int)
    requires (forall h :: h in history ==> h <= top) && q <= top
    ensures var news := history + {top + 1, top + 2} + {top + 3};
            && lo <= hi <= top + 3 && (if q == 0 then NothingAbove(news, hi) else lo <= q <= hi)
            && Slice(news, lo, hi) == [g] && (if q == 0 then g == top + 3 else q <= g <= top + 1)
  {
    var news := history + {top + 1, top + 2} + {top + 3};
    if q == 0 {
      lo, hi, g := top + 3, top + 3, top + 3;
    } else {
      g := LeastFrom(news, q, top + 1);
      lo, hi := q, g;
    }
    OnlyOne(news, lo, hi, g);
  }

  /** A message between the two targets that the lower first slice does not bring. */
  lemma {:induction false} LeftOut(history: set<int>, top: int, p: int, q: int, g: int, x: int) returns (m: int)
    requires p <= top && (if q == 0 then g == top + 3 else p < q <= g <= top + 1 && !Touch(history, p, q))
    requires var rest := history + {top + 1, top + 2} + {top + 3} - {g} + {top + 4};
             x <= p || (p < x && NothingBelow(rest, x))
    ensures m in history + {top + 1, top + 2} + {top + 3} - {g} && x < m < g
  {
    var rest := history + {top + 1, top + 2} + {top + 3} - {g} + {top + 4};
    if q == 0 {
      assert top + 1 in rest;
      m := top + 2;
    } else if x <= p {
      m :| m in history && p < m < q;
    } else {
      forall h | h in history ensures p + 1 <= h {
        assert h == g || h in rest;
      }
      var y, z :| y in history && z in history && p < y <= q - 1 && p < z <= q - 1 && y != z;
      assert y in rest && z in rest;
      m := if y < z then z else y;
    }
  }

  lemma {:induction false} FirstsBreak(s: System, s1: System, i: int, j: int, p: int, q: int)
    requires Sane(s) && Cleared(s, s1) && (forall r :: r in s1.inFlight ==> r.kind != UpdatePreviousSlice)
    requires 0 <= i < |s1.inFlight| && s1.inFlight[i] == Request(UpdateInitial, p) && p != 0 && p <= s.top
    requires 0 <= j < |s1.inFlight| && s1.inFlight[j] == Request(UpdateInitial, q) && q <= s.top
    requires q == 0 || (p < q && !Touch(s.history, p, q))
    ensures !StaysGapFree(s1)
  {
    var s2, s3 := TwoNewMessages(s, s1);
    var s4 := Apply(s3, NewMessage(s.top + 3));
    var lo, hi, g := UpperFirst(s.history, s.top, q);
    var s5 := FirstGone(s4, j, p, q, g, lo, hi);
    LowerComes(s, s5, p, q, g);
    BreaksLater(s3, NewMessage(s.top + 3));
    BreaksLater(s2, NewMessage(s.top + 2));
    BreaksLater(s1, NewMessage(s.top + 1));
  }

  lemma {:induction false} LowerComes(s: System, s5: System, p: int, q: int, g: int)
    requires Sane(s) && Overtaken(s5, p, g) && p != 0 && p <= s.top && s5.top == s.top + 3
    requires s5.history == s.history + {s.top + 1, s.top + 2} + {s.top + 3} - {g}
    requires if q == 0 then g == s.top + 3 else p < q <= g <= s.top + 1 && !Touch(s.history, p, q)
    ensures !StaysGapFree(s5)
  {
    var e := NewMessage(s.top + 4);
    var s6 := Apply(s5, e);
    var lo, hi, x := NearestTo(s6.history, s6.top, p);
    var m := LeftOut(s.history, s.top, p, q, g, x);
    NextSpoils(s6, p, g, lo, hi, x, m);
    BreaksLater(s5, e);
  }

  // When a reset is safe

  lemma {:induction false} ResetHappens(s: System, e: Event)
    requires Inv(s) && (e.JumpTo? || e.JumpToEnd?) && Jumps(s, e)
    ensures Reset(s, Apply(s, e), Target(e))
    ensures forall r :: r in s.inFlight ==> r.kind == UpdateInitial || r.kind == UpdateReload
    ensures forall r :: r in s.inFlight && r.kind == UpdateInitial ==> r.fromId != 0
  {
    NotWaiting(s, UpdatePreviousSlice);
    NotWaiting(s, UpdateNextSlice);
    var lo, hi :| Covers(s, lo, hi);
    forall r | r in s.inFlight && r.kind == UpdateInitial ensures r.fromId != 0 {
      assert Anchored(s, lo, hi, r);
    }
  }

  /** Of two first slices that do not meet, `p` is the lower one, and the other is behind a message or at the end. */
  lemma {:induction false} FirstsApart(s: System, s1: System, i: int, j: int)
    requires Sane(s) && Cleared(s, s1) && (forall r :: r in s1.inFlight ==> r.kind != UpdatePreviousSlice)
    requires IsFirst(s1.inFlight, i) && IsFirst(s1.inFlight, j) && i != j
    requires s1.inFlight[i].fromId <= s.top && s1.inFlight[j].fromId <= s.top
    requires s1.inFlight[i].fromId != 0 || s1.inFlight[j].fromId != 0
    requires !FirstsMeet(s.history, s1.inFlight[i].fromId, s1.inFlight[j].fromId)
    ensures !StaysGapFree(s1)
  {
    var p, q := s1.inFlight[i].fromId, s1.inFlight[j].fromId;
    if q == 0 || (p != 0 && !Touch(s.history, p, q)) {
      FirstsBreak(s, s1, i, j, p, q);
    } else {
      FirstsBreak(s, s1, j, i, q, p);
    }
  }

  lemma {:induction false} UnsafeReloads(s: System, s1: System, a: int, i: int)
    requires Sane(s) && Reset(s, s1, a) && a <= s.top && forall r :: r in s.inFlight ==> r.kind != UpdatePreviousSlice
    requires IsFirst(s1.inFlight, i) && !ReloadsFit(s.history, s1.inFlight, s1.inFlight[i].fromId)
    ensures !StaysGapFree(s1)
  {
    var t := s1.inFlight[i].fromId;
    forall r | r in s1.inFlight ensures r in s.inFlight || r == Request(UpdateInitial, a) {}
    assert s1.inFlight[i] in s1.inFlight;
    if r :| r in s1.inFlight && Live(s.history, r) && (t == 0 || !Adjoins(s.history, t, r.fromId)) {
      ApartBreaks(s, s1, i, t, r);
    } else {
      var r, q :| t in s.history && r in s1.inFlight && q in s1.inFlight && Astride(s.history, t, r, q)
                  && !AtMostThree(s.history, r.fromId);
      AstrideBreaks(s, s1, t, r, q);
    }
  }

  lemma {:induction false} FirstsAfterReset(s: System, s1: System, a: int, i: int)
    requires Sane(s) && Reset(s, s1, a) && a <= s.top && IsFirst(s1.inFlight, i)
    requires forall r :: r in s.inFlight && r.kind == UpdateInitial ==> r.fromId != 0
    ensures s1.inFlight[i].fromId <= s.top && (i < |s.inFlight| ==> s1.inFlight[i].fromId != 0)
  {
    if i < |s.inFlight| {
      assert s1.inFlight[i] == s.inFlight[i] && s.inFlight[i] in s.inFlight;
    }
  }

  lemma {:induction false} UnsafeReset(s: System, s1: System, a: int)
    requires Sane(s) && Reset(s, s1, a) && a <= s.top && !Harmless(s.history, s1.inFlight)
    requires forall r :: r in s.inFlight ==> r.kind != UpdatePreviousSlice
    requires forall r :: r in s.inFlight && r.kind == UpdateInitial ==> r.fromId != 0
    ensures !StaysGapFree(s1)
  {
    if i :| IsFirst(s1.inFlight, i) && !ReloadsFit(s.history, s1.inFlight, s1.inFlight[i].fromId) {
      UnsafeReloads(s, s1, a, i);
    } else {
      var i, j :| IsFirst(s1.inFlight, i) && IsFirst(s1.inFlight, j) && i != j
                  && !FirstsMeet(s.history, s1.inFlight[i].fromId, s1.inFlight[j].fromId);
      FirstsAfterReset(s, s1, a, i);
      FirstsAfterReset(s, s1, a, j);
      FirstsApart(s, s1, i, j);
    }
  }

  /** After `loadHistoryForMessage` or `loadEnd` every disciplined continuation is gap-free if and only if, for the
      target and every first slice that is still outstanding, the live reloads adjoin it, none is live if it is the
      end, two on both sides of one that exists have at most three messages at or below the lower one, and no two of
      these first slices can come apart. */
  lemma {:induction false} ResetExact(s: System, e: Event)
    requires Inv(s) && (e.JumpTo? || e.JumpToEnd?) && Possible(s, e) && Jumps(s, e)
    ensures StaysGapFree(Apply(s, e)) <==> ResetSafe(s, Target(e))
  {
    var s1, a := Apply(s, e), Target(e);
    ResetHappens(s, e);
    if ResetSafe(s, a) {
      JumpKeeps(s, e);
      InvStays(s1);
    } else {
      UnsafeReset(s, s1, a);
    }
  }

  // A previous slice

  /** Behind the last row a message arrives; the slice brings what follows its anchor and something older. */
  lemma {:induction false} UnsafeBreaks(s: System, j: int, h: int)
    requires Sane(s) && s.window.rows != [] && 0 <= j < |s.inFlight|
    requires s.inFlight[j].kind == UpdatePreviousSlice && !s.window.endReached
    requires s.window.rows[|s.window.rows| - 1] <= s.inFlight[j].fromId && h in s.history && h < s.window.rows[0]
    ensures !StaysGapFree(s)
  {
    var e := NewMessage(s.top + 1);
    var s1 := Apply(s, e);
    assert s1 == s.(history := s.history + {s.top + 1}, lastId := s.top + 1, top := s.top + 1);
    assert s.inFlight[j] in s.inFlight;
    EndsOf(s.window.rows);
    var n := LeastFrom(s1.history, s.inFlight[j].fromId + 1, s.top + 1);
    TwoSidedAllowed(s1, j, h, n);
    TwoSidedSlice(s1, j, h, n);
    Breaks(s1, Reply(j, h, n, 1));
    BreaksLater(s, e);
  }

  lemma {:induction false} TwoSidedSlice(s: System, j: int, h: int, n: int)
    requires 0 <= j < |s.inFlight| && s.inFlight[j].kind == UpdatePreviousSlice && s.window.Waiting(UpdatePreviousSlice)
    requires Ascending(s.window.rows) && s.window.rows != [] && h in s.history && n in s.history
    requires h < s.window.rows[0] && s.window.rows[|s.window.rows| - 1] < n
    ensures !GapFree(Apply(s, Reply(j, h, n, 1)))
  {
    EndsOf(s.window.rows);
    var added := TakenIn(s, Reply(j, h, n, 1), h);
    AroundRows(s.window.rows, added, h, n);
  }

  lemma {:induction false} TwoSidedAllowed(s: System, j: int, h: int, n: int)
    requires 0 <= j < |s.inFlight| && s.inFlight[j].kind == UpdatePreviousSlice
    requires h in s.history && h <= s.inFlight[j].fromId < n <= s.top
    requires NothingBetween(s.history, s.inFlight[j].fromId, n)
    ensures Allowed(s, Reply(j, h, n, 1))
  {
    SliceFacts(s.history, h, n);
    assert h in Slice(s.history, h, n);
  }

  /** With nothing loaded, a first slice or a reload first brings one message below the anchor. */
  lemma {:induction false} OneBelowBreaks(s: System, r: Request, q: Request, g: int, h: int)
    requires Sane(s) && s.window.rows == [] && !s.window.endReached && s.lastId != g
    requires r in s.inFlight && r.kind == UpdatePreviousSlice
    requires q in s.inFlight && (q.kind == UpdateInitial ==> q.fromId != 0)
    requires NextTo(s.history, q, g) && g <= r.fromId && h in s.history && h < g
    ensures !StaysGapFree(s)
  {
    var e := NearestAnswers(s, q, g);
    var s' := Apply(s, e);
    OneComesIn(s, s', e, r, g);
    var j := IndexOf(s'.inFlight, r);
    UnsafeBreaks(s', j, h);
    BreaksLater(s, e);
  }

  lemma {:induction false} EmptyBreaks(s: System, r: Request, q: Request, g: int, h: int)
    requires Sane(s) && s.window.rows == [] && !s.window.endReached
    requires r in s.inFlight && r.kind == UpdatePreviousSlice
    requires q in s.inFlight && (q.kind == UpdateInitial ==> q.fromId != 0)
    requires NextTo(s.history, q, g) && g <= r.fromId && h in s.history && h < g
    ensures !StaysGapFree(s)
  {
    var e := NewMessage(s.top + 1);
    var s1 := NewsUnloaded(s);
    assert NextTo(s1.history, q, g);
    OneBelowBreaks(s1, r, q, g, h);
    BreaksLater(s, e);
  }

  lemma {:induction false} NewsUnloaded(s: System) returns (s1: System)
    requires Sane(s) && !s.window.endReached
    ensures Allowed(s, NewMessage(s.top + 1)) && s1 == Apply(s, NewMessage(s.top + 1)) && Sane(s1)
    ensures s1 == s.(history := s.history + {s.top + 1}, lastId := s.top + 1, top := s.top + 1)
  {
    s1 := Apply(s, NewMessage(s.top + 1));
    assert Once(s1, UpdatePreviousSlice) && Once(s1, UpdateNextSlice);
  }

  lemma {:induction false} NearestAnswers(s: System, q: Request, g: int) returns (e: Event)
    requires q in s.inFlight && (q.kind == UpdateInitial ==> q.fromId != 0) && q.fromId <= s.top && g <= s.top
    requires NextTo(s.history, q, g)
    ensures e.Reply? && Allowed(s, e) && s.inFlight[e.j] == q && Slice(s.history, e.lo, e.hi) == [g]
  {
    var j := IndexOf(s.inFlight, q);
    if g <= q.fromId && NothingBetween(s.history, g, q.fromId + 1) {
      OnlyOne(s.history, g, q.fromId, g);
      e := Reply(j, g, q.fromId, 1);
    } else {
      OnlyOne(s.history, q.fromId, g, g);
      e := Reply(j, q.fromId, g, 1);
    }
  }

  lemma {:induction false} OneComesIn(s: System, s': System, e: Event, r: Request, g: int)
    requires Sane(s) && s.window.rows == [] && !s.window.endReached && s.lastId != g && g in s.history
    requires e.Reply? && Possible(s, e) && s' == Apply(s, e) && Slice(s.history, e.lo, e.hi) == [g]
    requires s.inFlight[e.j].kind == UpdateInitial || s.inFlight[e.j].kind == UpdateReload
    requires r in s.inFlight && r.kind == UpdatePreviousSlice
    ensures Sane(s') && s'.window.rows == [g] && !s'.window.endReached && r in s'.inFlight && s'.history == s.history
  {
    SliceUnloaded(s, e);
    ReplyEffect(s, e);
    OneRowIn(s, s', e, r, g, Receive(s, e).sent);
  }

  lemma {:induction false} OneRowIn(s: System, s': System, e: Event, r: Request, g: int, sent: seq<Request>)
    requires Sane(s) && s.window.rows == [] && !s.window.endReached && s.lastId != g && g in s.history
    requires e.Reply? && Possible(s, e) && Slice(s.history, e.lo, e.hi) == [g]
    requires s.inFlight[e.j].kind == UpdateInitial || s.inFlight[e.j].kind == UpdateReload
    requires r in s.inFlight && r.kind == UpdatePreviousSlice
    requires Replied(s, s', e.j, [g], sent) && FlagsAfter(s, e, s')
    ensures Sane(s') && s'.window.rows == [g] && !s'.window.endReached && r in s'.inFlight && s'.history == s.history
  {
    assert s'.window.rows == [g];
    ReplySane(s, s', e, [g], sent);
    StaysBehind(s.inFlight, e.j, r);
  }

  /** Every disciplined continuation is gap-free if and only if every outstanding previous slice finds the end reached,
      a row newer than its anchor, or nothing older than the first row; where nothing is loaded, this must be so for
      each message that an outstanding first slice or reload may bring alone. */
  lemma {:induction false} PreviousSliceExact(s: System)
    requires Sound(s)
    ensures StaysGapFree(s) <==> PreviousSafe(s)
  {
    if PreviousSafe(s) {
      InvStays(s);
    } else {
      var r :| r in s.inFlight && r.kind == UpdatePreviousSlice && !s.window.endReached
               && (if s.window.rows == [] then
                     exists q, g :: q in s.inFlight && NextTo(s.history, q, g) && g <= r.fromId
                                    && !NothingBelow(s.history, g)
                   else s.window.rows[|s.window.rows| - 1] <= r.fromId
                        && !NothingBelow(s.history, s.window.rows[0]));
      PreviousSpoils(s, r);
    }
  }

  lemma {:induction false} PreviousSpoils(s: System, r: Request)
    requires Sound(s) && r in s.inFlight && r.kind == UpdatePreviousSlice && !s.window.endReached
    requires if s.window.rows == [] then
               exists q, g :: q in s.inFlight && NextTo(s.history, q, g) && g <= r.fromId
                              && !NothingBelow(s.history, g)
             else s.window.rows[|s.window.rows| - 1] <= r.fromId && !NothingBelow(s.history, s.window.rows[0])
    ensures !StaysGapFree(s)
  {
    if s.window.rows == [] {
      var q, g :| q in s.inFlight && NextTo(s.history, q, g) && g <= r.fromId && !NothingBelow(s.history, g);
      var h :| h in s.history && h < g;
      var lo, hi :| Covers(s, lo, hi);
      assert q.kind == UpdateInitial ==> Anchored(s, lo, hi, q);
      EmptyBreaks(s, r, q, g, h);
    } else {
      var h :| h in s.history && h < s.window.rows[0];
      var j := IndexOf(s.inFlight, r);
      UnsafeBreaks(s, j, h);
    }
  }

  /** So asking for a previous slice is safe if and only if the end is reached, two rows are loaded, or nothing is
      older than the first row. */
  lemma {:induction false} LoadMoreHistoryExact(s: System)
    requires Inv(s) && !s.window.startReached && !s.window.Waiting(UpdatePreviousSlice) && s.window.rows != []
    ensures StaysGapFree(Apply(s, LoadMoreHistory))
            <==> (s.window.endReached || |s.window.rows| > 1 || NothingBelow(s.history, s.window.rows[0]))
  {
    var s', rows := Apply(s, LoadMoreHistory), s.window.rows;
    var r := Request(UpdatePreviousSlice, rows[0]);
    assert s' == s.(window := s.window.Wait(UpdatePreviousSlice, true), inFlight := s.inFlight + [r]);
    NotWaiting(s, UpdatePreviousSlice);
    assert r in s'.inFlight;
    EndsOf(rows);
    var safe := s.window.endReached || |rows| > 1 || NothingBelow(s.history, rows[0]);
    assert PreviousSafe(s') <==> safe;
    if safe {
      LoadMoreHistoryKeeps(s);
      InvStays(s');
    } else {
      var h :| h in s.history && h < rows[0];
      assert s'.inFlight[|s.inFlight|] == r;
      RequestSane(s, s', r);
      UnsafeBreaks(s', |s.inFlight|, h);
    }
  }

  // Unsafe resets are reachable, and the flags do not tell

  /** The source lets the reset through, and a disciplined continuation has a spoilt list. */
  ghost predicate LetThroughUnsafe(s: System, e: Event)
  {
    && (e.JumpTo? || e.JumpToEnd?) && Possible(s, e) && Jumps(s, e)
    && !ResetSafe(s, Target(e)) && !StaysGapFree(Apply(s, e))
  }

  lemma {:induction false} UnsafeIsLetThrough(s: System, e: Event)
    requires Inv(s) && (e.JumpTo? || e.JumpToEnd?) && Possible(s, e) && Jumps(s, e) && !ResetSafe(s, Target(e))
    ensures LetThroughUnsafe(s, e)
  {
    ResetExact(s, e);
  }

  ghost const SECOND_RELOAD: seq<Event> :=
    [Reply(0, 2, 2, 1), LoadMoreFuture, Reply(1, 2, 3, 2), Reply(0, 2, 2, 1)]

  lemma {:induction false} ShortSlices()
    ensures Slice({1, 2, 3}, 2, 2) == [2] && Slice({1, 2, 3}, 2, 3) == [2, 3]
    ensures Slice({1, 3}, 2, 3) == [3] && Slice({1}, 2, 2) == []
  {
    var h, g, o := {1, 2, 3}, {1, 3}, {1};
    assert Slice(h, 3, 2) == [] && Slice(h, 4, 3) == [] && Slice(g, 4, 3) == [] && Slice(o, 3, 2) == [];
    assert Slice(h, 3, 3) == [3] + Slice(h, 4, 3) == [3];
    assert Slice(g, 3, 3) == [3] + Slice(g, 4, 3) == [3];
    assert Slice(h, 2, 2) == [2] + Slice(h, 3, 2) == [2];
    assert Slice(h, 2, 3) == [2] + Slice(h, 3, 3) == [2, 3];
    assert Slice(g, 2, 3) == [] + Slice(g, 3, 3) == [3];
    assert Slice(o, 2, 2) == [] + Slice(o, 3, 2) == [];
  }

  /** From a fresh start, four disciplined steps lead to a state in which both `loadEnd` and `loadHistoryForMessage` are
      let through although a reload that can bring rows, and that no flag tells of, spoils what follows. */
  lemma {:induction false} SecondReloadUnseen()
    ensures Start(Reloading(0)) && AllowedRun(Reloading(0), SECOND_RELOAD)
    ensures var s := Run(Reloading(0), SECOND_RELOAD);
            && !s.window.Waiting(UpdateReload) && FirstAnswered(s)
            && LetThroughUnsafe(s, JumpToEnd(true, 0)) && LetThroughUnsafe(s, JumpTo(1))
  {
    FirstReload();
    NextRequested();
    SecondReload();
    FirstReloadAnswered();
    UnrollFour(Reloading(0), Reloading(1), Reloading(2), Reloading(3), Reloading(4), SECOND_RELOAD);
    FreshStart();
    StartHolds(Reloading(0));
    RunKeeps(Reloading(0), SECOND_RELOAD);
    EndsOfReloading();
    ApartFromThree(Reloading(4), Request(UpdateReload, 3));
    UnsafeIsLetThrough(Reloading(4), JumpToEnd(true, 0));
    UnsafeIsLetThrough(Reloading(4), JumpTo(1));
  }

  lemma {:induction false} FreshStart()
    ensures Start(Reloading(0))
  {
    assert Reloading(0).inFlight == [Request(UpdateInitial, 2)];
  }

  lemma {:induction false} ReloadUnfit(s: System, a: int, r: Request, h: int)
    requires r in s.inFlight && r.kind == UpdateReload && h in s.history && h <= r.fromId
    requires a == 0 || !Adjoins(s.history, a, r.fromId)
    ensures !ResetSafe(s, a)
  {
    var requests := s.inFlight + [Request(UpdateInitial, a)];
    assert IsFirst(requests, |s.inFlight|) && requests[|s.inFlight|].fromId == a;
    assert r in requests && Live(s.history, r);
  }

  lemma {:induction false} ApartFromThree(s: System, r: Request)
    requires s.history == {1, 2, 3} && r in s.inFlight && r == Request(UpdateReload, 3)
    ensures !ResetSafe(s, 0) && !ResetSafe(s, 1)
  {
    assert 1 in s.history && 2 in s.history && 3 in s.history;
    ReloadUnfit(s, 0, r, 3);
    ReloadUnfit(s, 1, r, 3);
  }

  lemma {:induction false} EndsOfReloading()
    ensures CanJump(Reloading(4).window) && !Reloading(4).window.Waiting(UpdateReload) && FirstAnswered(Reloading(4))
    ensures Reloading(4).history == {1, 2, 3} && Reloading(4).inFlight == [Request(UpdateReload, 3)]
  {
  }

  /** The states on the way: one row, a next request besides the first reload, two reloads, one of them answered. */
  ghost function Reloading(n: nat): System
    requires n <= 4
  {
    var first := map[UpdateReload := true, UpdateInitial := false];
    var window :=
      if n == 0 then CLEARED
      else if n == 1 then Window([2], first, false, false)
      else if n == 2 then Window([2], first[UpdateNextSlice := true], false, false)
      else if n == 3 then Window([2, 3], first[UpdateNextSlice := false], false, false)
      else Window([2, 3], first[UpdateNextSlice := false][UpdateReload := false], false, true);
    var inFlight :=
      if n == 0 then [Request(UpdateInitial, 2)]
      else if n == 1 then [Request(UpdateReload, 2)]
      else if n == 2 then [Request(UpdateReload, 2), Request(UpdateNextSlice, 2)]
      else if n == 3 then [Request(UpdateReload, 2), Request(UpdateReload, 3)]
      else [Request(UpdateReload, 3)];
    System(window, {1, 2, 3}, inFlight, 3, 3)
  }

  lemma {:induction false} FirstReload()
    ensures Allowed(Reloading(0), SECOND_RELOAD[0]) && Apply(Reloading(0), SECOND_RELOAD[0]) == Reloading(1)
  {
    ShortSlices();
    var s := Reloading(0);
    assert s.history - Elements(s.window.rows) == s.history;
    assert AddedBy(s, SECOND_RELOAD[0]) == [2];
  }

  lemma {:induction false} NextRequested()
    ensures Allowed(Reloading(1), SECOND_RELOAD[1]) && Apply(Reloading(1), SECOND_RELOAD[1]) == Reloading(2)
  {
  }

  lemma {:induction false} SecondReload()
    ensures Allowed(Reloading(2), SECOND_RELOAD[2]) && Apply(Reloading(2), SECOND_RELOAD[2]) == Reloading(3)
  {
    ShortSlices();
    var s := Reloading(2);
    assert s.history - Elements(s.window.rows) == {1, 3};
    assert AddedBy(s, SECOND_RELOAD[2]) == [3];
  }

  lemma {:induction false} FirstReloadAnswered()
    ensures Allowed(Reloading(3), SECOND_RELOAD[3]) && Apply(Reloading(3), SECOND_RELOAD[3]) == Reloading(4)
  {
    FirstReloadAllowed();
    FirstReloadApplied();
  }

  lemma {:induction false} FirstReloadAllowed()
    ensures Allowed(Reloading(3), Reply(0, 2, 2, 1))
  {
    ShortSlices();
    assert Reloading(3).inFlight[0] == Request(UpdateReload, 2);
  }

  lemma {:induction false} FirstReloadApplied()
    ensures Apply(Reloading(3), Reply(0, 2, 2, 1)) == Reloading(4)
  {
    var s, e := Reloading(3), Reply(0, 2, 2, 1);
    assert s.inFlight == [Request(UpdateReload, 2), Request(UpdateReload, 3)];
    assert s.history - Elements([2, 3]) == {1};
    ShortSlices();
    assert AddedBy(s, e) == [] && Slice(s.history, 2, 2) == [2];
    assert s.inFlight[..0] + s.inFlight[1..] == [Request(UpdateReload, 3)];
    FirstReloadWindow();
  }

  lemma {:induction false} FirstReloadWindow()
    ensures MessagesReceived(Reloading(3).window, UpdateReload, 1, [], 1, 3) == Outcome(Reloading(4).window, [])
  {
    var w := Reloading(3).window;
    var w' := w.Wait(UpdateReload, false).(endReached := true);
    assert w.rows == [2, 3] && 3 in w.rows && w.Waiting(UpdateReload);
    assert Accept(w, UpdateReload, 1, [], 1, 3) == Outcome(w', []);
    assert w'.Wait(UpdateReload, false).waitingFor == Reloading(4).window.waitingFor;
  }

  // A first slice that a reload has overtaken stays outstanding, which no flag tells either

  ghost const FIRST_OVERTAKEN: seq<Event> := [Reply(0, 2, 2, 1), JumpTo(2), Reply(0, 2, 2, 1)]

  /** The states behind `Reloading(1)`: reset around the loaded message, and its old reload answered first. */
  ghost function Overtaking(n: nat): System
    requires n <= 1
  {
    if n == 0 then System(CLEARED, {1, 2, 3}, [Request(UpdateReload, 2), Request(UpdateInitial, 2)], 3, 3)
    else
      System(Window([2], map[UpdateReload := false], false, false), {1, 2, 3}, [Request(UpdateInitial, 2)], 3, 3)
  }

  lemma {:induction false} ResetAround()
    ensures Allowed(Reloading(1), FIRST_OVERTAKEN[1]) && Apply(Reloading(1), FIRST_OVERTAKEN[1]) == Overtaking(0)
  {
    var requests := Reloading(1).inFlight + [Request(UpdateInitial, 2)];
    assert requests == [Request(UpdateReload, 2), Request(UpdateInitial, 2)];
    assert ReloadsFit({1, 2, 3}, requests, 2);
  }

  lemma {:induction false} ReloadOvertakes()
    ensures Allowed(Overtaking(0), FIRST_OVERTAKEN[2]) && Apply(Overtaking(0), FIRST_OVERTAKEN[2]) == Overtaking(1)
  {
    ShortSlices();
    var s, e := Overtaking(0), FIRST_OVERTAKEN[2];
    assert s.history - Elements(s.window.rows) == s.history;
    assert AddedBy(s, e) == [2];
    assert s.inFlight[..0] + s.inFlight[1..] == [Request(UpdateInitial, 2)];
    assert Receive(s, e).window.waitingFor == map[UpdateReload := false];
  }

  lemma {:induction false} OvertakenRun()
    ensures AllowedRun(Reloading(0), FIRST_OVERTAKEN) && Run(Reloading(0), FIRST_OVERTAKEN) == Overtaking(1)
  {
    FirstReload();
    ResetAround();
    ReloadOvertakes();
    UnrollThree(Reloading(0), Reloading(1), Overtaking(0), Overtaking(1), FIRST_OVERTAKEN);
  }

  /** The end of the chat meets no other first slice. */
  lemma {:induction false} FirstUnfit(s: System, i: int)
    requires IsFirst(s.inFlight, i)
    ensures !ResetSafe(s, 0)
  {
    var requests := s.inFlight + [Request(UpdateInitial, 0)];
    assert IsFirst(requests, i) && IsFirst(requests, |s.inFlight|) && i != |s.inFlight|;
    assert !FirstsMeet(s.history, requests[i].fromId, requests[|s.inFlight|].fromId);
  }

  /** With no reload outstanding at all, three disciplined steps lead to a state in which `loadEnd` is let through
      although the first slice of an earlier reset spoils what follows. */
  lemma {:induction false} FirstSliceUnseen()
    ensures Start(Reloading(0)) && AllowedRun(Reloading(0), FIRST_OVERTAKEN)
    ensures var s := Run(Reloading(0), FIRST_OVERTAKEN);
            (forall r :: r in s.inFlight ==> r.kind != UpdateReload) && LetThroughUnsafe(s, JumpToEnd(true, 0))
  {
    OvertakenRun();
    FreshStart();
    StartHolds(Reloading(0));
    RunKeeps(Reloading(0), FIRST_OVERTAKEN);
    FirstUnfit(Overtaking(1), 0);
    UnsafeIsLetThrough(Overtaking(1), JumpToEnd(true, 0));
  }

  /** To adjoin is more than to have no message between: a reload that ends at the next newer message can bring it
      together with an older one, around the row of the target. */
  lemma {:induction false} NextNewerDoesNotAdjoin()
    ensures NothingBetween({3, 5, 8}, 5, 8) && !Adjoins({3, 5, 8}, 5, 8) && Adjoins({3, 5, 8}, 5, 3)
    ensures Insert([5], Slice({3, 5, 8} - {5}, 3, 8)) == [3, 8, 5]
  {
    var h, rest := {3, 5, 8}, {3, 5, 8} - {5};
    assert 3 in h && 5 in h && 8 in h;
    SliceFacts(rest, 3, 8);
    AscendingUnique(Slice(rest, 3, 8), [3, 8]);
  }
}
