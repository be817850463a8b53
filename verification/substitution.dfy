/** Simultaneous substitution: replacing several disjoint stretches of a text at once, read from left to right.
    It is the simple form that both text transformations of the library have to agree with. */
module Substitution {
  import opened Lists

  /** Replace `length` characters from `offset` on by `text`; length 0 inserts. */
  datatype Edit<T> = Edit(offset: int, length: int, text: seq<T>)
  {
    function End(): int { offset + length }
  }

  /** The edits come in order, do not overlap, and stay between `lo` and `hi`. */
  ghost predicate Ordered<T>(es: seq<Edit<T>>, lo: int, hi: int)
  {
    if es == [] then lo <= hi
    else lo <= es[0].offset <= es[0].End() && Ordered(es[1..], es[0].End(), hi)
  }

  lemma {:induction false} OrderedBounds<T>(es: seq<Edit<T>>, lo: int, hi: int)
    requires Ordered(es, lo, hi)
    ensures lo <= hi && (es != [] ==> es[0].End() <= hi)
  {
    if es == [] {
    } else {
      OrderedBounds(es[1..], es[0].End(), hi);
    }
  }

  lemma {:induction false} OrderedFrom<T>(es: seq<Edit<T>>, lo: int, lo': int, hi: int)
    requires Ordered(es, lo, hi) && lo' <= lo
    ensures Ordered(es, lo', hi)
  {
    if es == [] {
    } else {
    }
  }

  /** The stretch `lo..hi` of `t` with all edits carried out. */
  ghost function Substitute<T>(t: seq<T>, es: seq<Edit<T>>, lo: int, hi: int): seq<T>
    requires 0 <= lo && hi <= |t| && Ordered(es, lo, hi)
  {
    OrderedBounds(es, lo, hi);
    if es == [] then t[lo..hi]
    else
      OrderedBounds(es[1..], es[0].End(), hi);
      t[lo..es[0].offset] + es[0].text + Substitute(t, es[1..], es[0].End(), hi)
  }

  lemma {:induction false} SubstituteHead<T>(t: seq<T>, es: seq<Edit<T>>, lo: int, hi: int)
    requires 0 <= lo && hi <= |t| && Ordered(es, lo, hi) && es != []
    ensures lo <= es[0].offset <= es[0].End() <= hi && Ordered(es[1..], es[0].End(), hi)
    ensures Substitute(t, es, lo, hi) == t[lo..es[0].offset] + es[0].text + Substitute(t, es[1..], es[0].End(), hi)
  {
    OrderedBounds(es, lo, hi);
  }

  /** The first edit, and the rest of the text. */
  lemma {:induction false} SubstituteCons<T>(t: seq<T>, e: Edit<T>, rest: seq<Edit<T>>, lo: int, hi: int)
    requires 0 <= lo <= e.offset <= e.End() && hi <= |t| && Ordered(rest, e.End(), hi)
    ensures Ordered([e] + rest, lo, hi) && e.End() <= hi
    ensures Substitute(t, [e] + rest, lo, hi) == t[lo..e.offset] + e.text + Substitute(t, rest, e.End(), hi)
  {
    assert ([e] + rest)[1..] == rest;
    OrderedBounds(rest, e.End(), hi);
  }

  /** QString::replace(pos, n, after): n is cut at the end of the string; a position outside it does nothing. */
  function Splice<T>(s: seq<T>, pos: int, n: int, after: seq<T>): seq<T>
    requires n >= 0
  {
    if pos < 0 || pos > |s| then s
    else s[..pos] + after + s[if pos + n < |s| then pos + n else |s|..]
  }

  /** The edits carried out one by one, each on the result of those before it, `shift` to the right. */
  function ApplyAll<T>(s: seq<T>, es: seq<Edit<T>>, shift: int): seq<T>
    requires forall k :: 0 <= k < |es| ==> es[k].length >= 0
    decreases |es|
  {
    if es == [] then s
    else ApplyAll(Splice(s, shift + es[0].offset, es[0].length, es[0].text), es[1..], shift)
  }

  /** The same, the last edit of the list first. */
  function ApplyBack<T>(s: seq<T>, es: seq<Edit<T>>): seq<T>
    requires forall k :: 0 <= k < |es| ==> es[k].length >= 0
  {
    if es == [] then s
    else Splice(ApplyBack(s, es[1..]), es[0].offset, es[0].length, es[0].text)
  }

  lemma {:induction false} ApplySnoc<T>(s: seq<T>, es: seq<Edit<T>>, e: Edit<T>)
    requires e.length >= 0 && forall k :: 0 <= k < |es| ==> es[k].length >= 0
    ensures ApplyAll(s, es + [e], 0) == Splice(ApplyAll(s, es, 0), e.offset, e.length, e.text)
    decreases |es|
  {
    if es == [] {
      assert [] + [e] == [e] && [e][1..] == [];
    } else {
      assert (es + [e])[1..] == es[1..] + [e];
      ApplySnoc(Splice(s, es[0].offset, es[0].length, es[0].text), es[1..], e);
    }
  }

  lemma {:induction false} ApplyReversed<T>(s: seq<T>, es: seq<Edit<T>>)
    requires forall k :: 0 <= k < |es| ==> es[k].length >= 0
    ensures ApplyAll(s, Reverse(es), 0) == ApplyBack(s, es)
  {
    if es == [] {
      assert Reverse(es) == [];
    } else {
      assert Reverse(es) == Reverse(es[1..]) + [es[0]];
      ApplyReversed(s, es[1..]);
      ApplySnoc(s, Reverse(es[1..]), es[0]);
    }
  }

  lemma {:induction false} OrderedLengths<T>(es: seq<Edit<T>>, lo: int, hi: int)
    requires Ordered(es, lo, hi)
    ensures forall k :: 0 <= k < |es| ==> es[k].length >= 0 && lo <= es[k].offset && es[k].End() <= hi
  {
    if es == [] {
    } else {
      OrderedBounds(es, lo, hi);
      OrderedLengths(es[1..], es[0].End(), hi);
      forall k | 0 <= k < |es| ensures es[k].length >= 0 && lo <= es[k].offset && es[k].End() <= hi {
        if k > 0 { assert es[k] == es[1..][k - 1]; }
      }
    }
  }

  /** Carrying edits out from right to left never disturbs the positions still to come. */
  lemma {:induction false} ApplyBackIsSubstitute<T>(t: seq<T>, es: seq<Edit<T>>, lo: int)
    requires 0 <= lo && Ordered(es, lo, |t|)
    requires forall k :: 0 <= k < |es| ==> es[k].length >= 0
    ensures lo <= |t| && ApplyBack(t, es) == t[..lo] + Substitute(t, es, lo, |t|)
  {
    OrderedBounds(es, lo, |t|);
    if es == [] {
    } else {
      var e := es[0];
      OrderedBounds(es[1..], e.End(), |t|);
      ApplyBackIsSubstitute(t, es[1..], e.End());
      var rest := Substitute(t, es[1..], e.End(), |t|);
      assert ApplyBack(t, es[1..]) == t[..e.End()] + rest;
      SpliceHead(t, e, rest);
      var p, q := t[..lo], t[lo..e.offset];
      assert t[..e.offset] == p + q;
      assert (p + q) + e.text + rest == p + (q + e.text + rest);
    }
  }

  lemma {:induction false} SpliceHead<T>(t: seq<T>, e: Edit<T>, rest: seq<T>)
    requires 0 <= e.offset <= e.End() <= |t|
    ensures Splice(t[..e.End()] + rest, e.offset, e.length, e.text) == t[..e.offset] + e.text + rest
  {
    var s := t[..e.End()] + rest;
    assert s[..e.offset] == t[..e.offset] && s[e.End()..] == rest;
  }

  lemma {:induction false} RightToLeft<T>(t: seq<T>, es: seq<Edit<T>>)
    requires Ordered(es, 0, |t|)
    ensures forall k :: 0 <= k < |Reverse(es)| ==> Reverse(es)[k].length >= 0
    ensures ApplyAll(t, Reverse(es), 0) == Substitute(t, es, 0, |t|)
  {
    OrderedLengths(es, 0, |t|);
    ApplyReversed(t, es);
    ApplyBackIsSubstitute(t, es, 0);
    assert t[..0] == [];
  }

  /** Substitution falls apart at any edit. */
  lemma {:induction false} SubstituteSplit<T>(t: seq<T>, a: seq<Edit<T>>, e: Edit<T>, b: seq<Edit<T>>, lo: int, hi: int)
    requires 0 <= lo && hi <= |t| && Ordered(a + [e] + b, lo, hi)
    ensures Ordered(a, lo, e.offset) && e.length >= 0 && Ordered(b, e.End(), hi)
    ensures 0 <= e.offset <= e.End() <= hi
    ensures Substitute(t, a + [e] + b, lo, hi)
            == Substitute(t, a, lo, e.offset) + e.text + Substitute(t, b, e.End(), hi)
  {
    var es := a + [e] + b;
    OrderedBounds(es, lo, hi);
    if a == [] {
      assert es == [e] + b && es[1..] == b;
    } else {
      assert es[1..] == a[1..] + [e] + b;
      OrderedBounds(es[1..], es[0].End(), hi);
      SubstituteSplit(t, a[1..], e, b, a[0].End(), hi);
      OrderedBounds(a[1..], a[0].End(), e.offset);
    }
  }

  /** Text behind the last edit is copied. */
  lemma {:induction false} SubstituteExtend<T>(t: seq<T>, es: seq<Edit<T>>, lo: int, hi: int, hi': int)
    requires 0 <= lo && hi <= hi' <= |t| && Ordered(es, lo, hi)
    ensures Ordered(es, lo, hi')
    ensures lo <= hi && Substitute(t, es, lo, hi') == Substitute(t, es, lo, hi) + t[hi..hi']
  {
    OrderedBounds(es, lo, hi);
    if es == [] {
      assert t[lo..hi'] == t[lo..hi] + t[hi..hi'];
    } else {
      OrderedBounds(es[1..], es[0].End(), hi);
      SubstituteExtend(t, es[1..], es[0].End(), hi, hi');
      var head, rest, more := t[lo..es[0].offset] + es[0].text, Substitute(t, es[1..], es[0].End(), hi), t[hi..hi'];
      assert head + (rest + more) == (head + rest) + more;
    }
  }

  /** Text before the first edit is copied. */
  lemma {:induction false} SubstituteEarlier<T>(t: seq<T>, es: seq<Edit<T>>, lo: int, lo': int, hi: int)
    requires 0 <= lo <= lo' && hi <= |t| && Ordered(es, lo', hi)
    ensures Ordered(es, lo, hi) && lo' <= hi
    ensures Substitute(t, es, lo, hi) == t[lo..lo'] + Substitute(t, es, lo', hi)
  {
    OrderedBounds(es, lo', hi);
    OrderedFrom(es, lo', lo, hi);
    if es == [] {
      assert t[lo..hi] == t[lo..lo'] + t[lo'..hi];
    } else {
      OrderedBounds(es[1..], es[0].End(), hi);
      var text, rest := es[0].text, Substitute(t, es[1..], es[0].End(), hi);
      var p, q := t[lo..lo'], t[lo'..es[0].offset];
      assert t[lo..es[0].offset] == p + q;
      assert (p + q) + text + rest == p + (q + text + rest);
    }
  }

  /** One more edit at the end. */
  lemma {:induction false} SubstituteSnoc<T>(t: seq<T>, es: seq<Edit<T>>, e: Edit<T>, lo: int, hi: int)
    requires 0 <= lo <= hi && Ordered(es, lo, hi) && hi <= e.offset && 0 <= e.length && e.End() <= |t|
    ensures Ordered(es + [e], lo, e.End())
    ensures Substitute(t, es + [e], lo, e.End()) == Substitute(t, es, lo, hi) + t[hi..e.offset] + e.text
  {
    OrderedBounds(es, lo, hi);
    OrderedSnoc(es, e, lo, hi);
    assert es + [e] + [] == es + [e];
    SubstituteSplit(t, es, e, [], lo, e.End());
    SubstituteExtend(t, es, lo, hi, e.offset);
    assert Substitute(t, [], e.End(), e.End()) == [];
  }

  lemma {:induction false} OrderedSnoc<T>(es: seq<Edit<T>>, e: Edit<T>, lo: int, hi: int)
    requires Ordered(es, lo, hi) && hi <= e.offset && 0 <= e.length
    ensures Ordered(es + [e], lo, e.End())
  {
    if es == [] {
      assert (es + [e])[1..] == [];
    } else {
      assert (es + [e])[1..] == es[1..] + [e];
      OrderedSnoc(es[1..], e, es[0].End(), hi);
    }
  }

  // Which of two edits lies before the other

  predicate Precedes<T>(a: Edit<T>, b: Edit<T>)
  {
    0 <= a.length && 0 <= b.length && a.End() <= b.offset && a.offset != b.End()
  }

  /** Two edits that neither overlap nor insert at the same point. */
  predicate Apart<T>(a: Edit<T>, b: Edit<T>)
  {
    Precedes(a, b) || Precedes(b, a)
  }

  ghost predicate PairwiseApart<T>(es: seq<Edit<T>>)
  {
    PairwiseBy(Apart, es)
  }

  ghost predicate InText<T>(es: seq<Edit<T>>, n: int)
  {
    0 <= n && forall k :: 0 <= k < |es| ==> 0 <= es[k].offset && 0 <= es[k].length && es[k].End() <= n
  }

  ghost predicate InSequence<T>(es: seq<Edit<T>>)
  {
    forall i, j :: 0 <= i < j < |es| ==> Precedes(es[i], es[j])
  }

  /** No edit starts before one that stands in front of it has ended; insertions at one point may follow each other. */
  ghost predicate OneAfterAnother<T>(es: seq<Edit<T>>)
  {
    forall i, j :: 0 <= i < j < |es| ==> es[i].End() <= es[j].offset
  }

  lemma {:induction false} OneAfterAnotherIsOrdered<T>(es: seq<Edit<T>>, lo: int, hi: int)
    requires OneAfterAnother(es) && lo <= hi
    requires forall k :: 0 <= k < |es| ==> lo <= es[k].offset && 0 <= es[k].length && es[k].End() <= hi
    ensures Ordered(es, lo, hi)
  {
    if es == [] {
    } else {
      var rest := es[1..];
      forall k | 0 <= k < |rest| ensures es[0].End() <= rest[k].offset && 0 <= rest[k].length && rest[k].End() <= hi {
        assert rest[k] == es[k + 1];
      }
      OneAfterAnotherIsOrdered(rest, es[0].End(), hi);
    }
  }

  lemma {:induction false} InSequenceIsOrdered<T>(es: seq<Edit<T>>, lo: int, hi: int)
    requires InSequence(es) && lo <= hi
    requires forall k :: 0 <= k < |es| ==> lo <= es[k].offset && 0 <= es[k].length && es[k].End() <= hi
    ensures Ordered(es, lo, hi)
  {
    forall i, j | 0 <= i < j < |es| ensures es[i].End() <= es[j].offset {
      assert Precedes(es[i], es[j]);
    }
    OneAfterAnotherIsOrdered(es, lo, hi);
  }

  /** Edits in sequence are determined by which edits they are. */
  lemma {:induction false} InSequenceUnique<T>(a: seq<Edit<T>>, b: seq<Edit<T>>)
    requires InSequence(a) && InSequence(b)
    requires forall e :: e in a <==> e in b
    ensures a == b
  {
    assert |a| > 0 ==> var e := a[0]; e in b;
    assert |b| > 0 ==> var e := b[0]; e in a;
    if a != [] && b != [] {
      var x, y := a[0], b[0];
      assert x == y;
      assert forall k :: 0 < k < |a| ==> Precedes(x, a[k]) && a[k] != x;
      assert forall k :: 0 < k < |b| ==> Precedes(x, b[k]) && b[k] != x;
      var a', b' := a[1..], b[1..];
      assert a == [x] + a' && b == [x] + b';
      assert x !in a' && x !in b';
      forall e ensures e in a' <==> e in b' {
        assert e in a <==> e == x || e in a';
        assert e in b <==> e == x || e in b';
      }
      InSequenceUnique(a', b');
    }
  }

  // Sorting the edits so that each comes after everything to its right

  /** FormattedText::Insertion::sort: the later end first, at equal ends the later start first. */
  predicate SortsBefore<T>(a: Edit<T>, b: Edit<T>)
  {
    if b.End() == a.End() then b.offset < a.offset else b.End() < a.End()
  }

  ghost predicate Sorted<T>(es: seq<Edit<T>>)
  {
    SortedBy(SortsBefore, es)
  }

  lemma {:induction false} SortedApart<T>(es: seq<Edit<T>>)
    requires Sorted(es) && PairwiseApart(es)
    ensures InSequence(Reverse(es))
  {
    var up := Reverse(es);
    forall i, j | 0 <= i < j < |up| ensures Precedes(up[i], up[j]) {
      var a, b := es[|es| - 1 - j], es[|es| - 1 - i];
      assert up[i] == b && up[j] == a;
      assert Apart(a, b) && !SortsBefore(b, a);
    }
  }

  /** Pairwise apart is a property of the collection, not of its order. */
  lemma {:induction false} ApartPermuted<T>(a: seq<Edit<T>>, b: seq<Edit<T>>)
    requires PairwiseApart(a) && multiset(a) == multiset(b)
    ensures PairwiseApart(b)
  {
    PairwisePermuted(Apart, a, b);
  }

  /** Two edits that do not overlap. */
  predicate Clear<T>(a: Edit<T>, b: Edit<T>)
  {
    0 <= a.length && 0 <= b.length && (a.End() <= b.offset || b.End() <= a.offset)
  }

  /** Edits that do not overlap, insertions at one point included, in any order the comparator allows: carried out one
      by one, they are substituted in that order. */
  lemma {:induction false} ClearEditsSubstitute<T>(t: seq<T>, es: seq<Edit<T>>, sorted: seq<Edit<T>>)
    requires PairwiseBy(Clear, es) && InText(es, |t|) && multiset(sorted) == multiset(es) && Sorted(sorted)
    ensures OneAfterAnother(Reverse(sorted)) && Ordered(Reverse(sorted), 0, |t|)
    ensures forall k :: 0 <= k < |sorted| ==> sorted[k].length >= 0
    ensures ApplyAll(t, sorted, 0) == Substitute(t, Reverse(sorted), 0, |t|)
  {
    var up := Reverse(sorted);
    PairwisePermuted(Clear, es, sorted);
    PermutedMembers(es, sorted);
    forall k | 0 <= k < |up| ensures 0 <= up[k].offset && 0 <= up[k].length && up[k].End() <= |t| {
      assert up[k] == sorted[|sorted| - 1 - k] && up[k] in sorted;
    }
    SortedClear(sorted);
    OneAfterAnotherIsOrdered(up, 0, |t|);
    RightToLeft(t, up);
    assert Reverse(up) == sorted;
  }

  lemma {:induction false} SortedClear<T>(sorted: seq<Edit<T>>)
    requires PairwiseBy(Clear, sorted) && Sorted(sorted)
    ensures OneAfterAnother(Reverse(sorted))
  {
    var up := Reverse(sorted);
    forall i, j | 0 <= i < j < |up| ensures up[i].End() <= up[j].offset {
      var a, b := sorted[|sorted| - 1 - j], sorted[|sorted| - 1 - i];
      assert up[i] == b && up[j] == a && Clear(a, b) && !SortsBefore(b, a);
    }
  }

  /** Edits that are pairwise apart, sorted by the comparator and carried out one by one, are one simultaneous
      substitution. */
  lemma {:induction false} SortedEditsSubstitute<T>(t: seq<T>, es: seq<Edit<T>>, sorted: seq<Edit<T>>)
    requires PairwiseApart(es) && InText(es, |t|)
    requires multiset(sorted) == multiset(es) && Sorted(sorted)
    ensures InSequence(Reverse(sorted)) && Ordered(Reverse(sorted), 0, |t|)
    ensures forall k :: 0 <= k < |sorted| ==> sorted[k].length >= 0
    ensures ApplyAll(t, sorted, 0) == Substitute(t, Reverse(sorted), 0, |t|)
  {
    ApartPermuted(es, sorted);
    SortedApart(sorted);
    forall k | 0 <= k < |sorted| ensures 0 <= sorted[k].offset && 0 <= sorted[k].length && sorted[k].End() <= |t| {
      assert sorted[k] in multiset(sorted);
      assert sorted[k] in es;
    }
    InSequenceIsOrdered(Reverse(sorted), 0, |t|);
    RightToLeft(t, Reverse(sorted));
    assert Reverse(Reverse(sorted)) == sorted;
  }

  // A sorted copy, to speak about "the" order

  ghost function InsertSorted<T>(es: seq<Edit<T>>, e: Edit<T>): seq<Edit<T>>
  {
    if es == [] then [e] else if SortsBefore(e, es[0]) then [e] + es else [es[0]] + InsertSorted(es[1..], e)
  }

  ghost function SortedCopy<T>(es: seq<Edit<T>>): seq<Edit<T>>
  {
    if es == [] then [] else InsertSorted(SortedCopy(es[1..]), es[0])
  }

  lemma {:induction false} InsertSortedFacts<T>(es: seq<Edit<T>>, e: Edit<T>)
    requires Sorted(es)
    ensures multiset(InsertSorted(es, e)) == multiset(es) + multiset{e}
    ensures Sorted(InsertSorted(es, e))
  {
    if es == [] {
    } else if SortsBefore(e, es[0]) {
      forall k | 0 <= k < |es| ensures !SortsBefore(es[k], e) {
        assert k > 0 ==> !SortsBefore(es[k], es[0]);
      }
    } else {
      assert es == [es[0]] + es[1..];
      InsertSortedFacts(es[1..], e);
      var rest := InsertSorted(es[1..], e);
      forall k | 0 <= k < |rest| ensures !SortsBefore(rest[k], es[0]) {
        assert rest[k] in multiset(rest);
        assert rest[k] == e || rest[k] in es[1..];
      }
    }
  }

  lemma {:induction false} SortedCopyFacts<T>(es: seq<Edit<T>>)
    ensures multiset(SortedCopy(es)) == multiset(es) && Sorted(SortedCopy(es))
  {
    if es == [] {
    } else {
      assert es == [es[0]] + es[1..];
      SortedCopyFacts(es[1..]);
      InsertSortedFacts(SortedCopy(es[1..]), es[0]);
    }
  }

  lemma {:induction false} ApartConcat<T>(a: seq<Edit<T>>, b: seq<Edit<T>>)
    requires PairwiseApart(a) && PairwiseApart(b)
    requires forall i, j :: 0 <= i < |a| && 0 <= j < |b| ==> Apart(a[i], b[j])
    ensures PairwiseApart(a + b)
  {
    forall i, j | 0 <= i < j < |a + b| ensures Apart((a + b)[i], (a + b)[j]) {
      if i < |a| <= j {
        assert Apart(a[i], b[j - |a|]);
      }
    }
  }

  lemma {:induction false} InTextConcat<T>(a: seq<Edit<T>>, b: seq<Edit<T>>, n: int)
    requires InText(a, n) && InText(b, n)
    ensures InText(a + b, n)
  {
  }
}
