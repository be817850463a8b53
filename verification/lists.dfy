/** Lists of any kind: turning them round, permuting them, and the insertion step of a sort. */
module Lists {

  function Reverse<T>(s: seq<T>): (r: seq<T>)
    ensures |r| == |s|
    ensures forall k :: 0 <= k < |s| ==> r[k] == s[|s| - 1 - k]
  {
    seq(|s|, k requires 0 <= k < |s| => s[|s| - 1 - k])
  }

  lemma {:induction false} ReverseMembers<T>(s: seq<T>)
    ensures forall x :: x in Reverse(s) <==> x in s
  {
    forall x | x in s ensures x in Reverse(s) {
      var k :| 0 <= k < |s| && s[k] == x;
      assert Reverse(s)[|s| - 1 - k] == x;
    }
  }

  lemma {:induction false} ReverseConcat<T>(a: seq<T>, b: seq<T>)
    ensures Reverse(a + b) == Reverse(b) + Reverse(a)
  {
    var l, r := Reverse(a + b), Reverse(b) + Reverse(a);
    forall k | 0 <= k < |l| ensures l[k] == r[k] {
      if k < |b| {
        assert r[k] == Reverse(b)[k] == b[|b| - 1 - k];
      } else {
        assert r[k] == Reverse(a)[k - |b|];
      }
    }
  }

  lemma {:induction false} PermutedMembers<T>(a: seq<T>, b: seq<T>)
    requires multiset(a) == multiset(b)
    ensures forall e :: e in a <==> e in b
  {
    forall e ensures e in a <==> e in b {
      assert e in a <==> e in multiset(a);
      assert e in b <==> e in multiset(b);
    }
  }

  lemma {:induction false} TwoOccurrences<T>(s: seq<T>, i: int, j: int)
    requires 0 <= i < j < |s| && s[i] == s[j]
    ensures multiset(s)[s[i]] >= 2
  {
    assert s == s[..i] + [s[i]] + s[i + 1..j] + [s[i]] + s[j + 1..];
  }

  lemma {:induction false} TwiceInSeq<T>(a: seq<T>, x: T)
    requires multiset(a)[x] >= 2
    ensures exists k, m :: 0 <= k < m < |a| && a[k] == x && a[m] == x
  {
    assert a == [a[0]] + a[1..];
    if a[0] == x {
      assert x in multiset(a[1..]);
      var m :| 0 <= m < |a[1..]| && a[1..][m] == x;
      assert a[m + 1] == x;
    } else {
      TwiceInSeq(a[1..], x);
      var k, m :| 0 <= k < m < |a[1..]| && a[1..][k] == x && a[1..][m] == x;
      assert a[k + 1] == x && a[m + 1] == x;
    }
  }

  /** A range of rows is erased: nothing happens unless 0 <= first <= last. */
  function CutRange<T>(s: seq<T>, first: int, last: int): (r: seq<T>)
    requires last < |s|
    ensures 0 <= first <= last ==> |r| == |s| - (last + 1 - first)
  {
    if 0 <= first <= last then s[..first] + s[last + 1..] else s
  }

  /** Any two elements at different places are related. */
  ghost predicate PairwiseBy<T>(related: (T, T) -> bool, s: seq<T>)
  {
    forall i, j :: 0 <= i < j < |s| ==> related(s[i], s[j])
  }

  lemma {:induction false} PairwiseConcat<T>(related: (T, T) -> bool, a: seq<T>, b: seq<T>)
    requires PairwiseBy(related, a) && PairwiseBy(related, b)
    requires forall i, j :: 0 <= i < |a| && 0 <= j < |b| ==> related(a[i], b[j])
    ensures PairwiseBy(related, a + b)
  {
  }

  /** Taking one occurrence of the same element out of two permuted lists leaves permuted lists. */
  lemma {:induction false} OneLess<T>(x: T, rest: seq<T>, l: seq<T>, r: seq<T>)
    requires multiset([x] + rest) == multiset(l + [x] + r)
    ensures multiset(rest) == multiset(l + r)
  {
    assert multiset([x] + rest) == multiset{x} + multiset(rest);
    assert multiset(l + [x] + r) == multiset{x} + multiset(l + r);
    assert multiset(rest) == multiset([x] + rest) - multiset{x};
  }

  /** For a symmetric relation this is a property of the collection, not of its order. */
  lemma {:induction false} PairwisePermuted<T>(related: (T, T) -> bool, a: seq<T>, b: seq<T>)
    requires forall x, y :: x in a && y in a && related(x, y) ==> related(y, x)
    requires PairwiseBy(related, a) && multiset(a) == multiset(b)
    ensures PairwiseBy(related, b)
  {
    forall i, j | 0 <= i < j < |b| ensures related(b[i], b[j]) {
      TwoPlaces(related, a, b, i, j);
    }
  }

  lemma {:induction false} TwoPlaces<T>(related: (T, T) -> bool, a: seq<T>, b: seq<T>, i: int, j: int)
    requires forall x, y :: x in a && y in a && related(x, y) ==> related(y, x)
    requires PairwiseBy(related, a) && multiset(a) == multiset(b) && 0 <= i < j < |b|
    ensures related(b[i], b[j])
  {
    var x, y := b[i], b[j];
    assert x in multiset(b) && y in multiset(b);
    assert x in a && y in a;
    if x == y {
      TwoOccurrences(b, i, j);
      TwiceInSeq(a, x);
    } else {
      var k :| 0 <= k < |a| && a[k] == x;
      var m :| 0 <= m < |a| && a[m] == y;
      assert if k < m then related(a[k], a[m]) else related(a[m], a[k]);
    }
  }

  // Sorting

  /** What std::sort promises of `before`: no element sorts before one that stands in front of it. */
  ghost predicate SortedBy<T>(before: (T, T) -> bool, s: seq<T>)
  {
    forall i, j :: 0 <= i < j < |s| ==> !before(s[j], s[i])
  }

  /** A strict weak order, as std::sort demands it. */
  ghost predicate WeakOrder<T(!new)>(before: (T, T) -> bool)
  {
    && (forall x, y :: before(x, y) ==> !before(y, x))
    && (forall x, y, z :: !before(x, y) && !before(y, z) ==> !before(x, z))
  }

  /** An insertion step: `x` goes behind the last element that it does not sort before. */
  lemma {:induction false} PlacedSorted<T(!new)>(before: (T, T) -> bool, s: seq<T>, j: nat, x: T)
    requires WeakOrder(before) && SortedBy(before, s) && j <= |s| && (j > 0 ==> !before(x, s[j - 1]))
    requires forall k :: j <= k < |s| ==> before(x, s[k])
    ensures multiset(s[..j] + [x] + s[j..]) == multiset(s) + multiset{x}
    ensures SortedBy(before, s[..j] + [x] + s[j..])
  {
    assert s == s[..j] + s[j..];
    PlacedInOrder(before, s, j, x, s[..j] + [x] + s[j..]);
  }

  lemma {:induction false} PlacedInOrder<T(!new)>(before: (T, T) -> bool, s: seq<T>, j: nat, x: T, placed: seq<T>)
    requires WeakOrder(before) && SortedBy(before, s) && j <= |s| && (j > 0 ==> !before(x, s[j - 1]))
    requires forall k :: j <= k < |s| ==> before(x, s[k])
    requires |placed| == |s| + 1
    requires forall k :: 0 <= k < |placed| ==> placed[k] == if k < j then s[k] else if k == j then x else s[k - 1]
    ensures SortedBy(before, placed)
  {
    forall a, b | 0 <= a < b < |placed| ensures !before(placed[b], placed[a]) {
      assert placed[a] == if a < j then s[a] else if a == j then x else s[a - 1];
      assert placed[b] == if b < j then s[b] else if b == j then x else s[b - 1];
      if a < j <= b {
        assert a < j - 1 ==> !before(s[j - 1], s[a]);
        assert !before(x, s[a]);
        assert b > j ==> !before(s[b - 1], s[a]);
      } else if a == j {
        assert before(x, s[b - 1]);
      }
    }
  }
}
