/** Batched deletion: one scan over the batch that merges neighbouring rows into ranges
    and removes each range when the next row found leaves a gap (messagesmodel.cpp:294-327).
    The inverted model runs the same scan over the batch in the other direction. */
module Deletion {
  import opened IdLists
  import opened Lists

  /** The loop's state. The source marks "no range yet" by setting both ends to the batch size. */
  datatype Scan = Scan(ids: seq<int>, first: int, last: int)

  /** Both ends of the range, as far as they are set, name rows of the list. */
  predicate InRange(s: Scan, count: int)
  {
    (s.first == count || 0 <= s.first < |s.ids|) && (s.last == count || 0 <= s.last < |s.ids|)
    && ((s.first == count && s.last == count) || s.last < |s.ids|)
  }

  function Step(s: Scan, id: int, count: int): (r: Scan)
    requires InRange(s, count)
    ensures InRange(r, count)
  {
    var position := PositionOf(s.ids, id);
    if position < 0 then s
    else
      var last := if s.last == count then position else s.last;
      var first := if s.first == count then position else s.first;
      if position < first - 1 then
        var cut := CutRange(s.ids, first, last);
        Scan(cut, position, position)
      else
        Scan(s.ids, position, last)
  }

  function ScanAll(s: Scan, batch: seq<int>, count: int): (r: Scan)
    requires InRange(s, count)
    ensures InRange(r, count)
    decreases |batch|
  {
    if batch == [] then s else ScanAll(Step(s, batch[0], count), batch[1..], count)
  }

  function Finish(s: Scan, count: int): seq<int>
    requires InRange(s, count)
  {
    if s.first != count && s.last != count then CutRange(s.ids, s.first, s.last) else s.ids
  }

  /** What the whole handler leaves of `ids` when it looks the batch up in the order `scan`. */
  function DeleteAll(ids: seq<int>, scan: seq<int>): seq<int>
  {
    Finish(ScanAll(Scan(ids, |scan|, |scan|), scan, |scan|), |scan|)
  }

  /** The rows of the batch are looked up from the end of the list towards its start.
      A batch in list order gives this when scanned backwards; ids that are not loaded, and repeats, are allowed. */
  ghost predicate TowardsStart(ids: seq<int>, scan: seq<int>)
  {
    forall i, j :: 0 <= i < j < |scan| && scan[i] in ids && scan[j] in ids ==>
      PositionOf(ids, scan[j]) <= PositionOf(ids, scan[i])
  }

  /** The batch size doubles as the "unset" marker, so row number |batch| is special:
      it may be deleted only together with both of its neighbours. */
  predicate MarkerClear(ids: seq<int>, batch: seq<int>)
  {
    var n := |batch|;
    0 < n < |ids| && ids[n] in batch ==>
      ids[n - 1] in batch && n + 1 < |ids| && ids[n + 1] in batch
  }

  // The states the scan passes through. `done` is the part of the batch already looked up.

  ghost predicate NothingFound(list: seq<int>, done: seq<int>, s: Scan, n: int)
  {
    s == Scan(list, n, n) && forall k :: 0 <= k < |list| ==> list[k] !in done
  }

  ghost predicate RangeOpen(list: seq<int>, done: seq<int>, s: Scan, n: int)
  {
    && 0 <= s.first <= s.last < |list| && s.last != n
    && (forall k :: s.first <= k <= s.last ==> list[k] in done)
    && (forall k :: 0 <= k < s.first ==> list[k] !in done)
    && s.ids == list[..s.last + 1] + Without(list[s.last + 1..], done)
    && (s.first < n < |list| && list[n] in done ==>
          list[n - 1] in done && n + 1 < |list| && list[n + 1] in done)
  }

  /** What is left to look up lies at or before row `bound`, where the list is still the old one. */
  ghost predicate Ahead(list: seq<int>, s: Scan, rest: seq<int>, bound: int)
  {
    && Distinct(list) && Distinct(s.ids)
    && 0 <= bound < |list| && bound < |s.ids| && (forall k :: 0 <= k <= bound ==> s.ids[k] == list[k])
    && TowardsStart(list, rest)
    && (forall k :: 0 <= k < |rest| ==> rest[k] !in list ==> rest[k] !in s.ids)
    && (forall k :: 0 <= k < |rest| ==> rest[k] in list ==> PositionOf(list, rest[k]) <= bound)
  }

  /** Row `x` can no longer be removed. */
  ghost predicate Spared(s: Scan, x: int, n: int)
  {
    exists j :: 0 <= j < |s.ids| && s.ids[j] == x
      && (s.first == s.last == n == j || (0 <= s.first <= s.last < j && s.last < n))
  }

  /** Row `y`, which is not in the batch, is inside the open range. */
  ghost predicate Doomed(s: Scan, y: int, n: int)
  {
    0 <= s.first < n - 1 && n < s.last < |s.ids| && Distinct(s.ids) && s.ids[n - 1] == y
  }

  lemma {:induction false} AheadPosition(list: seq<int>, s: Scan, rest: seq<int>, bound: int)
    requires Ahead(list, s, rest, bound) && rest != []
    ensures PositionOf(s.ids, rest[0]) == PositionOf(list, rest[0])
  {
    var q := PositionOf(list, rest[0]);
    if q >= 0 {
      assert rest[0] == list[q] == s.ids[q];
      DistinctPosition(s.ids, q);
    }
  }

  lemma {:induction false} AheadTail(list: seq<int>, s: Scan, rest: seq<int>, bound: int, s': Scan, bound': int)
    requires Ahead(list, s, rest, bound) && rest != []
    requires bound' == (if rest[0] in list then PositionOf(list, rest[0]) else bound)
    requires Distinct(s'.ids) && bound' < |s'.ids| && (forall k :: 0 <= k <= bound' ==> s'.ids[k] == list[k])
    requires forall x :: x in s'.ids ==> x in s.ids
    ensures Ahead(list, s', rest[1..], bound')
  {
    forall k | 0 <= k < |rest[1..]|
      ensures rest[1..][k] !in list ==> rest[1..][k] !in s'.ids
      ensures rest[1..][k] in list ==> PositionOf(list, rest[1..][k]) <= bound'
    {
      var x := rest[k + 1];
      assert rest[1..][k] == x;
      assert x !in list ==> x !in s.ids;
    }
  }

  lemma {:induction false} CutDistinct(ids: seq<int>, first: int, last: int)
    requires Distinct(ids) && last < |ids|
    ensures Distinct(CutRange(ids, first, last))
    ensures forall x :: x in CutRange(ids, first, last) ==> x in ids
    ensures first <= |ids| ==> first <= |CutRange(ids, first, last)|
    ensures first <= |ids| ==> forall k :: 0 <= k < first ==> CutRange(ids, first, last)[k] == ids[k]
  {
    var cut := CutRange(ids, first, last);
    if 0 <= first <= last {
      forall k | 0 <= k < |cut| ensures cut[k] == if k < first then ids[k] else ids[k + (last + 1 - first)] {}
    }
  }

  lemma {:induction false} StepKeepsAhead(list: seq<int>, s: Scan, rest: seq<int>, n: int)
    requires InRange(s, n) && rest != []
    requires Ahead(list, s, rest, s.first) && (0 <= s.last < |s.ids|)
    ensures Ahead(list, Step(s, rest[0], n), rest[1..], Step(s, rest[0], n).first)
  {
    AheadPosition(list, s, rest, s.first);
    var s' := Step(s, rest[0], n);
    var q := PositionOf(s.ids, rest[0]);
    if q >= 0 {
      CutDistinct(s.ids, s.first, if s.last == n then q else s.last);
      assert s'.first == q;
    }
    AheadTail(list, s, rest, s.first, s', s'.first);
  }

  /** A row that ends a range exactly at the marker survives the whole scan. */
  lemma {:induction false} SparedStays(list: seq<int>, s: Scan, rest: seq<int>, x: int, n: int)
    requires InRange(s, n) && Spared(s, x, n) && Ahead(list, s, rest, s.first)
    ensures x in Finish(ScanAll(s, rest, n), n)
    decreases |rest|
  {
    var j :| 0 <= j < |s.ids| && s.ids[j] == x
      && (s.first == s.last == n == j || (0 <= s.first <= s.last < j && s.last < n));
    if rest == [] {
      if s.first != n {
        assert CutRange(s.ids, s.first, s.last)[j - (s.last + 1 - s.first)] == x;
      }
    } else {
      AheadPosition(list, s, rest, s.first);
      var q := PositionOf(s.ids, rest[0]);
      var s' := Step(s, rest[0], n);
      if 0 <= q < s.first - 1 && s.last != n {
        assert s'.ids[j - (s.last + 1 - s.first)] == x;
      }
      assert Spared(s', x, n);
      StepKeepsAhead(list, s, rest, n);
      SparedStays(list, s', rest[1..], x, n);
    }
  }

  lemma {:induction false} GoneStays(s: Scan, rest: seq<int>, y: int, n: int)
    requires InRange(s, n) && y !in s.ids
    ensures y !in Finish(ScanAll(s, rest, n), n)
    decreases |rest|
  {
    if rest == [] {
      forall k | 0 <= k < |Finish(s, n)| ensures Finish(s, n)[k] != y {
        assert Finish(s, n)[k] in s.ids;
      }
    } else {
      var s' := Step(s, rest[0], n);
      forall k | 0 <= k < |s'.ids| ensures s'.ids[k] != y {
        assert s'.ids[k] in s.ids;
      }
      GoneStays(s', rest[1..], y, n);
    }
  }

  /** A row swallowed by a range that started before the marker is deleted although nobody asked for it. */
  lemma {:induction false} DoomedGoes(list: seq<int>, s: Scan, rest: seq<int>, y: int, n: int)
    requires InRange(s, n) && Doomed(s, y, n) && Ahead(list, s, rest, s.first)
    ensures y !in Finish(ScanAll(s, rest, n), n)
    decreases |rest|
  {
    if rest == [] {
      DoomedCut(s, y, n);
    } else {
      AheadPosition(list, s, rest, s.first);
      var s' := Step(s, rest[0], n);
      if s'.ids == s.ids {
        StepKeepsAhead(list, s, rest, n);
        DoomedGoes(list, s', rest[1..], y, n);
      } else {
        DoomedCut(s, y, n);
        GoneStays(s', rest[1..], y, n);
      }
    }
  }

  lemma {:induction false} DoomedCut(s: Scan, y: int, n: int)
    requires Doomed(s, y, n)
    ensures y !in CutRange(s.ids, s.first, s.last)
  {
    var cut := CutRange(s.ids, s.first, s.last);
    forall k | 0 <= k < |cut| ensures cut[k] != y {
      assert cut[k] == if k < s.first then s.ids[k] else s.ids[k + (s.last + 1 - s.first)];
    }
  }

  lemma {:induction false} WithoutMore(part: seq<int>, done: seq<int>, id: int)
    requires id !in part
    ensures Without(part, done + [id]) == Without(part, done)
  {
    WithoutSameMembers(part, done + [id], done);
  }

  lemma {:induction false} TailMembers(list: seq<int>, from: nat, q: int)
    requires Distinct(list) && q < from <= |list|
    ensures 0 <= q ==> list[q] !in list[from..]
  {
  }

  /** Looking up an id that is not loaded changes nothing. */
  lemma {:induction false} RangeSkips(list: seq<int>, done: seq<int>, s: Scan, id: int, n: int)
    requires RangeOpen(list, done, s, n) && id !in list
    ensures RangeOpen(list, done + [id], s, n)
  {
    WithoutMore(list[s.last + 1..], done, id);
  }

  /** The next row is the one before the range (or its first row again): the range grows. */
  lemma {:induction false} RangeGrows(list: seq<int>, done: seq<int>, s: Scan, q: int, n: int)
    requires Distinct(list) && RangeOpen(list, done, s, n)
    requires 0 <= q && s.first - 1 <= q <= s.first
    ensures RangeOpen(list, done + [list[q]], Scan(s.ids, q, s.last), n)
  {
    var done' := done + [list[q]];
    TailMembers(list, s.last + 1, q);
    WithoutMore(list[s.last + 1..], done, list[q]);
    forall k | q <= k <= s.last ensures list[k] in done' {}
    forall k | 0 <= k < q ensures list[k] !in done' {}
  }

  lemma {:induction false} WithoutRun(list: seq<int>, done: seq<int>, from: nat, first: nat, last: nat)
    requires from <= first <= last < |list|
    requires forall k :: from <= k < first ==> list[k] !in done
    requires forall k :: first <= k <= last ==> list[k] in done
    ensures Without(list[from..], done) == list[from..first] + Without(list[last + 1..], done)
  {
    WithoutKeeps(list, done, from, first);
    WithoutDrops(list, done, first, last + 1);
  }

  /** The next row leaves a gap: the range goes, a new one opens. */
  lemma {:induction false} RangeGoes(list: seq<int>, done: seq<int>, s: Scan, q: int, n: int)
    requires Distinct(list) && RangeOpen(list, done, s, n) && s.first != n
    requires 0 <= q < s.first - 1 && s.last < |s.ids|
    ensures q != n ==> RangeOpen(list, done + [list[q]], Scan(CutRange(s.ids, s.first, s.last), q, q), n)
  {
    var done' := done + [list[q]];
    assert forall k :: 0 <= k < s.first ==> (list[k] in done' <==> k == q);
    assert forall k :: s.first <= k <= s.last ==> list[k] in done';
    RangeGoesIds(list, done, done', s, q);
    if q < n < |list| && list[n] in done' {
      assert s.first < n && list[n] in done;
      assert list[n - 1] in done && n + 1 < |list| && list[n + 1] in done;
    }
  }

  lemma {:induction false} RangeGoesIds(list: seq<int>, done: seq<int>, done': seq<int>, s: Scan, q: int)
    requires Distinct(list) && 0 <= q < s.first <= s.last < |list| && done' == done + [list[q]]
    requires s.ids == list[..s.last + 1] + Without(list[s.last + 1..], done)
    requires forall k :: q < k < s.first ==> list[k] !in done'
    requires forall k :: s.first <= k <= s.last ==> list[k] in done'
    ensures CutRange(s.ids, s.first, s.last) == list[..q + 1] + Without(list[q + 1..], done')
  {
    var tail := Without(list[s.last + 1..], done);
    CutOpen(list, s, tail);
    TailMembers(list, s.last + 1, q);
    WithoutMore(list[s.last + 1..], done, list[q]);
    WithoutRun(list, done', q + 1, s.first, s.last);
    JoinSlices(list, q + 1, s.first, tail);
  }

  lemma {:induction false} JoinSlices(list: seq<int>, a: nat, b: nat, tail: seq<int>)
    requires a <= b <= |list|
    ensures list[..b] + tail == list[..a] + (list[a..b] + tail)
  {
    assert list[..b] == list[..a] + list[a..b];
  }

  lemma {:induction false} CutOpen(list: seq<int>, s: Scan, tail: seq<int>)
    requires 0 <= s.first <= s.last < |list| && s.ids == list[..s.last + 1] + tail
    ensures CutRange(s.ids, s.first, s.last) == list[..s.first] + tail
  {
    assert s.ids[..s.first] == list[..s.first] && s.ids[s.last + 1..] == tail;
  }

  /** A finished range away from the marker leaves exactly the rows that are not in the batch. */
  lemma {:induction false} RangeFinishes(list: seq<int>, done: seq<int>, s: Scan, n: int)
    requires Distinct(list) && InRange(s, n) && RangeOpen(list, done, s, n) && n == |done|
    ensures s.first != n ==> Finish(s, n) == Without(list, done) && MarkerClear(list, done)
    ensures s.first == n ==> Finish(s, n) != Without(list, done) && !MarkerClear(list, done)
  {
    if s.first != n {
      CutOpen(list, s, Without(list[s.last + 1..], done));
      WithoutRun(list, done, 0, s.first, s.last);
      assert list[0..] == list && list[0..s.first] == list[..s.first];
    } else {
      assert s.ids[n] == list[n];
      WithoutMember(list, done, list[n]);
      assert list[n] in s.ids;
    }
  }

  /** A range that has grown down to the marker is taken for none: the row before it goes, too. */
  lemma {:induction false} MarkerOverwritten(list: seq<int>, done: seq<int>, s: Scan, rest: seq<int>, n: int)
    requires InRange(s, n) && RangeOpen(list, done, s, n) && Ahead(list, s, rest, s.first) && n == |done + rest|
    requires rest != [] && 0 <= PositionOf(list, rest[0]) < s.first - 1 && s.first == n
    ensures Finish(ScanAll(s, rest, n), n) != Without(list, done + rest) && !MarkerClear(list, done + rest)
  {
    AheadPosition(list, s, rest, s.first);
    StepKeepsAhead(list, s, rest, n);
    assert list[n - 1] !in done + rest by { NotAhead(list, done, s, rest, n - 1); }
    DoomedGoes(list, Step(s, rest[0], n), rest[1..], list[n - 1], n);
    WithoutMember(list, done + rest, list[n - 1]);
  }

  /** A row above everything still to be looked up and below the open range is not in the batch. */
  lemma {:induction false} NotAhead(list: seq<int>, done: seq<int>, s: Scan, rest: seq<int>, k: int)
    requires Distinct(list) && rest != [] && rest[0] in list && TowardsStart(list, rest)
    requires PositionOf(list, rest[0]) < k < |list| && list[k] !in done
    ensures list[k] !in done + rest
  {
    DistinctPosition(list, k);
  }

  /** A range that starts at the marker is forgotten: its row stays. */
  lemma {:induction false} MarkerHit(list: seq<int>, s: Scan, rest: seq<int>, all: seq<int>, n: int)
    requires InRange(s, n) && Ahead(list, s, rest, s.first) && s.first == s.last == n
    requires list[n] in all && n == |all| && (n + 1 < |list| ==> list[n + 1] !in all)
    ensures Finish(ScanAll(s, rest, n), n) != Without(list, all) && !MarkerClear(list, all)
  {
    assert s.ids[n] == list[n];
    SparedStays(list, s, rest, list[n], n);
    WithoutMember(list, all, list[n]);
  }

  /** The scan can only end wrong, and the marker condition is violated. */
  ghost predicate Misses(list: seq<int>, s: Scan, rest: seq<int>, all: seq<int>, n: int)
    requires InRange(s, n)
  {
    Finish(ScanAll(s, rest, n), n) != Without(list, all) && !MarkerClear(list, all)
  }

  /** One lookup from an open range: it stays open, or another opens, unless the marker gets in the way. */
  lemma {:induction false} RangeStep(list: seq<int>, done: seq<int>, s: Scan, rest: seq<int>, n: int)
    requires InRange(s, n) && RangeOpen(list, done, s, n) && Ahead(list, s, rest, s.first)
    requires rest != [] && n == |done + rest|
    ensures var s' := Step(s, rest[0], n);
            || (RangeOpen(list, done + [rest[0]], s', n) && Ahead(list, s', rest[1..], s'.first))
            || Misses(list, s', rest[1..], done + rest, n)
  {
    var id, s' := rest[0], Step(s, rest[0], n);
    AheadPosition(list, s, rest, s.first);
    StepKeepsAhead(list, s, rest, n);
    var q := PositionOf(list, id);
    if q < 0 {
      RangeSkips(list, done, s, id, n);
    } else if s.first - 1 <= q {
      RangeGrows(list, done, s, q, n);
    } else if s.first == n {
      MarkerOverwritten(list, done, s, rest, n);
    } else if q == n {
      NotAhead(list, done, s, rest, n + 1);
      MarkerHit(list, s', rest[1..], done + rest, n);
    } else {
      RangeGoes(list, done, s, q, n);
    }
  }

  /** The scan leaves exactly the rows outside the batch if and only if the marker is not in the way. */
  ghost predicate Settles(list: seq<int>, s: Scan, rest: seq<int>, all: seq<int>, n: int)
    requires InRange(s, n)
  {
    Finish(ScanAll(s, rest, n), n) == Without(list, all) <==> MarkerClear(list, all)
  }

  lemma {:induction false} SettlesBefore(list: seq<int>, s: Scan, rest: seq<int>, all: seq<int>, n: int)
    requires InRange(s, n) && rest != []
    requires var s' := Step(s, rest[0], n);
             Settles(list, s', rest[1..], all, n) || Misses(list, s', rest[1..], all, n)
    ensures Settles(list, s, rest, all, n)
  {
  }

  /** From an open range. */
  lemma {:induction false} RangeRun(list: seq<int>, done: seq<int>, s: Scan, rest: seq<int>, all: seq<int>, n: int)
    requires InRange(s, n) && RangeOpen(list, done, s, n) && Ahead(list, s, rest, s.first)
    requires all == done + rest && n == |all|
    ensures Settles(list, s, rest, all, n)
    decreases |rest|
  {
    if rest == [] {
      assert done == all;
      RangeFinishes(list, done, s, n);
    } else {
      RangeStep(list, done, s, rest, n);
      var s' := Step(s, rest[0], n);
      if !Misses(list, s', rest[1..], all, n) {
        OneMoreDone(done, rest);
        RangeRun(list, done + [rest[0]], s', rest[1..], all, n);
      }
      SettlesBefore(list, s, rest, all, n);
    }
  }

  lemma {:induction false} OneMoreDone(done: seq<int>, rest: seq<int>)
    requires rest != []
    ensures done + [rest[0]] + rest[1..] == done + rest
  {
  }

  /** The first row found opens a range, unless it is the marker. */
  lemma {:induction false} NothingStep(list: seq<int>, done: seq<int>, s: Scan, rest: seq<int>, n: int)
    requires InRange(s, n) && NothingFound(list, done, s, n) && Distinct(list) && TowardsStart(list, rest)
    requires rest != [] && n == |done + rest| && rest[0] in list
    ensures var s' := Step(s, rest[0], n);
            || (RangeOpen(list, done + [rest[0]], s', n) && Ahead(list, s', rest[1..], s'.first))
            || Misses(list, s', rest[1..], done + rest, n)
  {
    FirstFound(list, s, rest, n);
    if PositionOf(list, rest[0]) == n {
      if n + 1 < |list| { NotAhead(list, done, s, rest, n + 1); }
      MarkerHit(list, Step(s, rest[0], n), rest[1..], done + rest, n);
    } else {
      FirstRange(list, done, rest[0], n);
    }
  }

  lemma {:induction false} NothingRun(list: seq<int>, done: seq<int>, s: Scan, rest: seq<int>, all: seq<int>, n: int)
    requires InRange(s, n) && NothingFound(list, done, s, n) && Distinct(list) && TowardsStart(list, rest)
    requires all == done + rest && n == |all|
    ensures Settles(list, s, rest, all, n)
    decreases |rest|
  {
    if rest == [] {
      assert done == all;
      WithoutKeeps(list, done, 0, |list|);
      assert list[0..] == list[0..|list|] == list;
    } else {
      OneMoreDone(done, rest);
      var s' := Step(s, rest[0], n);
      if rest[0] !in list {
        TowardsStartTail(list, rest);
        NothingRun(list, done + [rest[0]], s', rest[1..], all, n);
      } else {
        NothingStep(list, done, s, rest, n);
        if !Misses(list, s', rest[1..], all, n) {
          RangeRun(list, done + [rest[0]], s', rest[1..], all, n);
        }
      }
      SettlesBefore(list, s, rest, all, n);
    }
  }

  lemma {:induction false} TowardsStartTail(list: seq<int>, rest: seq<int>)
    requires TowardsStart(list, rest) && rest != []
    ensures TowardsStart(list, rest[1..])
  {
    assert forall k :: 0 <= k < |rest| - 1 ==> rest[1..][k] == rest[k + 1];
  }

  lemma {:induction false} FirstFound(list: seq<int>, s: Scan, rest: seq<int>, n: int)
    requires s == Scan(list, n, n) && rest != [] && rest[0] in list && Distinct(list) && TowardsStart(list, rest)
    ensures Ahead(list, Step(s, rest[0], n), rest[1..], PositionOf(list, rest[0]))
    ensures Step(s, rest[0], n) == Scan(list, PositionOf(list, rest[0]), PositionOf(list, rest[0]))
  {
    forall k | 0 <= k < |rest[1..]| && rest[1..][k] in list
      ensures PositionOf(list, rest[1..][k]) <= PositionOf(list, rest[0])
    {
      assert rest[1..][k] == rest[k + 1];
    }
  }

  lemma {:induction false} FirstRange(list: seq<int>, done: seq<int>, id: int, n: int)
    requires Distinct(list) && id in list && forall k :: 0 <= k < |list| ==> list[k] !in done
    requires PositionOf(list, id) != n
    ensures RangeOpen(list, done + [id], Scan(list, PositionOf(list, id), PositionOf(list, id)), n)
  {
    var q := PositionOf(list, id);
    var done' := done + [id];
    assert forall k :: 0 <= k < |list| ==> (list[k] in done' <==> k == q);
    NothingBehind(list, done', q + 1);
  }

  lemma {:induction false} NothingBehind(list: seq<int>, batch: seq<int>, from: nat)
    requires from <= |list| && forall k :: from <= k < |list| ==> list[k] !in batch
    ensures list == list[..from] + Without(list[from..], batch)
  {
    WithoutKeeps(list, batch, from, |list|);
    assert list[|list|..] == [] && list[from..|list|] == list[from..];
  }

  /** Deleting a batch that is looked up from the end towards the start of a list of distinct ids leaves
      exactly the other rows, in their order, if and only if the row numbered like the batch size is not
      deleted or is deleted together with both its neighbours. */
  lemma {:induction false} DeletionExact(list: seq<int>, scan: seq<int>)
    requires Distinct(list) && TowardsStart(list, scan)
    ensures DeleteAll(list, scan) == Without(list, scan) <==> MarkerClear(list, scan)
  {
    assert [] + scan == scan;
    NothingRun(list, [], Scan(list, |scan|, |scan|), scan, scan, |scan|);
  }

  /** The failing family is inhabited: two rows are asked for, row 2 is one of them, and it stays. */
  lemma {:induction false} MarkerCollision()
    ensures Distinct([10, 20, 30]) && TowardsStart([10, 20, 30], [30, 10])
    ensures DeleteAll([10, 20, 30], [30, 10]) == [20, 30] != Without([10, 20, 30], [30, 10])
  {
    var list := [10, 20, 30];
    assert PositionOf(list, 30) == 2;
    var s := Step(Scan(list, 2, 2), 30, 2);
    assert s == Scan(list, 2, 2);
    var s' := Step(s, 10, 2);
    assert s' == Scan(list, 0, 0);
    assert [30, 10][1..] == [10] && [10][1..] == [];
    assert ScanAll(s, [10], 2) == ScanAll(s', [], 2) == s';
    WithoutMember(list, [30, 10], 30);
    assert DeleteAll(list, [30, 10])[1] == 30;
  }
}
