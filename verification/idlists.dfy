/** Lists of message ids, as the models hold them row by row. */
module IdLists {

  ghost predicate Distinct(s: seq<int>)
  {
    forall i, j :: 0 <= i < j < |s| ==> s[i] != s[j]
  }

  ghost predicate Ascending(s: seq<int>)
  {
    forall i, j :: 0 <= i < j < |s| ==> s[i] < s[j]
  }

  ghost predicate Descending(s: seq<int>)
  {
    forall i, j :: 0 <= i < j < |s| ==> s[i] > s[j]
  }

  function Elements(s: seq<int>): (r: set<int>)
    ensures forall x :: x in r <==> x in s
  {
    set x | x in s
  }

  lemma {:induction false} NotEmptyHas(s: seq<int>)
    ensures s != [] ==> exists x :: x in s
  {
    if s != [] {
      var x := s[0];
      assert x in s;
    }
  }

  /** The row that holds `id`, or -1: what a lookup in an exact index map with default -1 answers. */
  function PositionOf(s: seq<int>, id: int): (p: int)
    ensures -1 <= p < |s|
    ensures p >= 0 ==> s[p] == id
    ensures p == -1 <==> id !in s
  {
    if s == [] then -1
    else if s[0] == id then 0
    else
      var p := PositionOf(s[1..], id);
      if p < 0 then -1 else p + 1
  }

  /** The list without the ids of a batch, the others in their old order. */
  function Without(s: seq<int>, batch: seq<int>): (r: seq<int>)
    ensures |r| <= |s|
  {
    if s == [] then [] else (if s[0] in batch then [] else [s[0]]) + Without(s[1..], batch)
  }

  lemma {:induction false} WithoutMember(s: seq<int>, batch: seq<int>, x: int)
    ensures x in Without(s, batch) <==> x in s && x !in batch
  {
    if s == [] {
    } else {
      WithoutMember(s[1..], batch, x);
      assert s == [s[0]] + s[1..];
    }
  }

  lemma {:induction false} WithoutConcat(a: seq<int>, b: seq<int>, batch: seq<int>)
    ensures Without(a + b, batch) == Without(a, batch) + Without(b, batch)
  {
    if a == [] {
      assert a + b == b;
    } else {
      assert (a + b)[1..] == a[1..] + b;
      WithoutConcat(a[1..], b, batch);
    }
  }

  /** Rows from..to are not in the batch: they all stay. */
  lemma {:induction false} WithoutKeeps(s: seq<int>, batch: seq<int>, from: nat, to: nat)
    requires from <= to <= |s|
    requires forall k :: from <= k < to ==> s[k] !in batch
    ensures Without(s[from..], batch) == s[from..to] + Without(s[to..], batch)
    decreases if from <= to then to - from else 0
  {
    if from == to {
      assert s[from..to] == [];
    } else {
      WithoutKeeps(s, batch, from + 1, to);
      assert s[from..][1..] == s[from + 1..];
      assert s[from..to] == [s[from]] + s[from + 1..to];
      var kept, rest := s[from + 1..to], Without(s[to..], batch);
      assert [s[from]] + (kept + rest) == ([s[from]] + kept) + rest;
    }
  }

  /** Rows from..to are all in the batch: none of them stays. */
  lemma {:induction false} WithoutDrops(s: seq<int>, batch: seq<int>, from: nat, to: nat)
    requires from <= to <= |s|
    requires forall k :: from <= k < to ==> s[k] in batch
    ensures Without(s[from..], batch) == Without(s[to..], batch)
    decreases if from <= to then to - from else 0
  {
    if from == to {
    } else {
      WithoutDrops(s, batch, from + 1, to);
      assert s[from..][1..] == s[from + 1..];
    }
  }

  lemma {:induction false} WithoutSameMembers(s: seq<int>, a: seq<int>, b: seq<int>)
    requires forall k :: 0 <= k < |s| ==> (s[k] in a <==> s[k] in b)
    ensures Without(s, a) == Without(s, b)
  {
    if s == [] {
    } else {
      WithoutSameMembers(s[1..], a, b);
    }
  }

  /** Taking rows out keeps an ascending list ascending. */
  lemma {:induction false} WithoutAscending(s: seq<int>, batch: seq<int>)
    requires Ascending(s)
    ensures Ascending(Without(s, batch))
  {
    if s == [] {
    } else {
      var rest := Without(s[1..], batch);
      WithoutAscending(s[1..], batch);
      forall k | 0 <= k < |rest| ensures rest[k] > s[0] {
        WithoutMember(s[1..], batch, rest[k]);
      }
      assert Without(s, batch) == (if s[0] in batch then [] else [s[0]]) + rest;
    }
  }

  lemma {:induction false} DistinctPosition(s: seq<int>, p: nat)
    requires Distinct(s) && p < |s|
    ensures PositionOf(s, s[p]) == p
  {
  }

  /** An ascending list is determined by its members. */
  lemma {:induction false} AscendingUnique(a: seq<int>, b: seq<int>)
    requires Ascending(a) && Ascending(b)
    requires forall x :: x in a <==> x in b
    ensures a == b
  {
    assert |a| > 0 ==> var x := a[0]; x in b;
    assert |b| > 0 ==> var x := b[0]; x in a;
    if a != [] && b != [] {
      var x, y := a[0], b[0];
      assert x in b && y in a;
      assert a[0] == b[0];
      AscendingTail(a);
      AscendingTail(b);
      AscendingUnique(a[1..], b[1..]);
      assert a == [a[0]] + a[1..] && b == [b[0]] + b[1..];
    }
  }

  lemma {:induction false} AscendingTail(s: seq<int>)
    requires Ascending(s) && s != []
    ensures forall x :: x in s[1..] <==> x in s && x != s[0]
  {
    assert s == [s[0]] + s[1..];
  }

  lemma {:induction false} TailStep<T>(s: seq<T>, k: nat)
    requires k < |s|
    ensures s[k..][0] == s[k] && s[k..][1..] == s[k + 1..]
  {
  }
}
