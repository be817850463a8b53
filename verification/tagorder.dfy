/** Tags of entities that may share boundaries. The sort leaves their order open there; for which orders the tags are
    balanced. */
module TagOrder {
  import opened Lists
  import opened Substitution
  import opened FormattedTexts
  import opened MarkupTokens
  import opened Nesting

  // Brackets

  ghost predicate Before(ts: seq<Token>, x: Token, y: Token)
  {
    exists p, q :: 0 <= p < q < |ts| && ts[p] == x && ts[q] == y
  }

  predicate Differ(x: Token, y: Token)
  {
    x != y
  }

  /** Nothing but tags, each at most once, and every entity with both or none. */
  ghost predicate Paired(ts: seq<Token>)
  {
    && PairwiseBy(Differ, ts) && (forall t :: t in ts ==> t.Tag?)
    && forall i: nat :: Tag(i, true) in ts <==> Tag(i, false) in ts
  }

  /** Every entity opens before it closes, and no two cross. */
  ghost predicate Untangled(ts: seq<Token>)
  {
    && (forall i: nat :: Tag(i, true) in ts ==> Before(ts, Tag(i, true), Tag(i, false)))
    && (forall i: nat, j: nat :: !Cross(ts, i, j))
  }

  /** The second entity opens inside the first one and closes behind it. */
  ghost predicate Cross(ts: seq<Token>, i: nat, j: nat)
  {
    && Before(ts, Tag(i, true), Tag(j, true)) && Before(ts, Tag(j, true), Tag(i, false))
    && Before(ts, Tag(i, false), Tag(j, false))
  }

  function Opened(open: seq<nat>): (r: seq<Token>)
    ensures |r| == |open| && forall k :: 0 <= k < |r| ==> r[k] == Tag(open[k], true)
  {
    seq(|open|, k requires 0 <= k < |open| => Tag(open[k], true))
  }

  lemma {:induction false} Once(ts: seq<Token>, p: int, q: int)
    requires PairwiseBy(Differ, ts) && 0 <= p < |ts| && 0 <= q < |ts| && ts[p] == ts[q]
    ensures p == q
  {
    assert p < q ==> Differ(ts[p], ts[q]);
    assert q < p ==> Differ(ts[q], ts[p]);
  }

  lemma {:induction false} BeforeOnce(ts: seq<Token>, x: Token, y: Token)
    requires PairwiseBy(Differ, ts) && Before(ts, x, y)
    ensures !Before(ts, y, x) && x != y && x in ts && y in ts
  {
    var p, q :| 0 <= p < q < |ts| && ts[p] == x && ts[q] == y;
    assert Differ(ts[p], ts[q]);
    forall p', q' | 0 <= p' < q' < |ts| ensures !(ts[p'] == y && ts[q'] == x) {
      if ts[q'] == x { Once(ts, p, q'); }
      if ts[p'] == y { Once(ts, q, p'); }
    }
  }

  lemma {:induction false} BeforeTotal(ts: seq<Token>, x: Token, y: Token)
    requires x in ts && y in ts && x != y
    ensures Before(ts, x, y) || Before(ts, y, x)
  {
    var p :| 0 <= p < |ts| && ts[p] == x;
    var q :| 0 <= q < |ts| && ts[q] == y;
  }

  /** A pair of tags next to each other can be taken out. */
  lemma {:induction false} BeforeWithout(a: seq<Token>, o: Token, c: Token, b: seq<Token>, x: Token, y: Token)
    requires x != o && x != c && y != o && y != c
    ensures Before(a + b, x, y) <==> Before(a + [o, c] + b, x, y)
  {
    var small, big := a + b, a + [o, c] + b;
    assert forall k :: 0 <= k < |small| ==> small[k] == big[if k < |a| then k else k + 2];
    if p, q :| 0 <= p < q < |small| && small[p] == x && small[q] == y {
      assert big[if p < |a| then p else p + 2] == x && big[if q < |a| then q else q + 2] == y;
    }
    if p, q :| 0 <= p < q < |big| && big[p] == x && big[q] == y {
      assert small[if p < |a| then p else p - 2] == x && small[if q < |a| then q else q - 2] == y;
    }
  }

  lemma {:induction false} PairedWithout(a: seq<Token>, i: nat, b: seq<Token>)
    requires Paired(a + [Tag(i, true), Tag(i, false)] + b)
    ensures Paired(a + b) && Tag(i, true) !in a + b && Tag(i, false) !in a + b
  {
    var small, big := a + b, a + [Tag(i, true), Tag(i, false)] + b;
    assert forall k :: 0 <= k < |small| ==> small[k] == big[if k < |a| then k else k + 2];
    forall p, q | 0 <= p < q < |small| ensures Differ(small[p], small[q]) {
      assert Differ(big[if p < |a| then p else p + 2], big[if q < |a| then q else q + 2]);
    }
    forall k | 0 <= k < |small| ensures small[k] != Tag(i, true) && small[k] != Tag(i, false) {
      var k' := if k < |a| then k else k + 2;
      assert big[|a|] == Tag(i, true) && big[|a| + 1] == Tag(i, false);
      assert if k' < |a| then Differ(big[k'], big[|a|]) else Differ(big[|a|], big[k']);
      assert if k' < |a| then Differ(big[k'], big[|a| + 1]) else Differ(big[|a| + 1], big[k']);
    }
    forall t ensures t in big <==> t in small || t == Tag(i, true) || t == Tag(i, false) {}
  }

  lemma {:induction false} UntangledWithout(a: seq<Token>, i: nat, b: seq<Token>)
    requires Paired(a + [Tag(i, true), Tag(i, false)] + b)
    ensures Untangled(a + [Tag(i, true), Tag(i, false)] + b) <==> Untangled(a + b)
  {
    var o, c := Tag(i, true), Tag(i, false);
    var small, big := a + b, a + [o, c] + b;
    PairedWithout(a, i, b);
    assert big[|a|] == o && big[|a| + 1] == c;
    assert Before(big, o, c);
    forall j: nat | j != i ensures Tag(j, true) in big <==> Tag(j, true) in small {}
    forall j: nat | j != i
      ensures Before(big, Tag(j, true), Tag(j, false)) <==> Before(small, Tag(j, true), Tag(j, false))
    {
      BeforeWithout(a, o, c, b, Tag(j, true), Tag(j, false));
    }
    forall j: nat, k: nat ensures Cross(big, j, k) <==> Cross(small, j, k) {
      if j == i || k == i {
        NothingInPair(a, i, b, Tag(if j == i then k else j, j == i));
        CrossNot(small, i, j, k);
      } else {
        BeforeWithout(a, o, c, b, Tag(j, true), Tag(k, true));
        BeforeWithout(a, o, c, b, Tag(k, true), Tag(j, false));
        BeforeWithout(a, o, c, b, Tag(j, false), Tag(k, false));
      }
    }
  }

  lemma {:induction false} CrossNot(ts: seq<Token>, i: nat, j: nat, k: nat)
    requires Tag(i, true) !in ts && (j == i || k == i)
    ensures !Cross(ts, j, k)
  {
  }

  /** Between the two there is nothing. */
  lemma {:induction false} NothingInPair(a: seq<Token>, i: nat, b: seq<Token>, x: Token)
    requires Paired(a + [Tag(i, true), Tag(i, false)] + b)
    ensures var ts := a + [Tag(i, true), Tag(i, false)] + b;
            !(Before(ts, Tag(i, true), x) && Before(ts, x, Tag(i, false)))
  {
    var ts := a + [Tag(i, true), Tag(i, false)] + b;
    assert ts[|a|] == Tag(i, true) && ts[|a| + 1] == Tag(i, false);
    if p, q :| 0 <= p < q < |ts| && ts[p] == Tag(i, true) && ts[q] == x {
      Once(ts, p, |a|);
      forall r, t | 0 <= r < t < |ts| ensures !(ts[r] == x && ts[t] == Tag(i, false)) {
        if ts[t] == Tag(i, false) { Once(ts, t, |a| + 1); }
        if ts[r] == x { Once(ts, r, q); }
      }
    }
  }

  /** A closing tag that does not close what was opened last. */
  lemma {:induction false} WrongClosing(open: seq<nat>, i: nat, rest: seq<Token>)
    requires Paired(Opened(open) + [Tag(i, false)] + rest) && (open == [] || open[|open| - 1] != i)
    ensures !Untangled(Opened(open) + [Tag(i, false)] + rest)
  {
    var ts, n := Opened(open) + [Tag(i, false)] + rest, |open|;
    assert ts[n] == Tag(i, false);
    assert Tag(i, true) in ts;
    var p :| 0 <= p < |ts| && ts[p] == Tag(i, true);
    if p > n {
      assert Before(ts, Tag(i, false), Tag(i, true));
      if Before(ts, Tag(i, true), Tag(i, false)) { BeforeOnce(ts, Tag(i, true), Tag(i, false)); }
    } else {
      var j := open[n - 1];
      assert ts[n - 1] == Tag(j, true) && ts[n - 1] in ts;
      assert Tag(j, false) in ts;
      var q :| 0 <= q < |ts| && ts[q] == Tag(j, false);
      assert q > n;
      assert Before(ts, Tag(i, true), Tag(j, true)) && Before(ts, Tag(j, true), Tag(i, false));
      assert Cross(ts, i, j);
    }
  }

  lemma {:induction false} NeverClosed(open: seq<nat>)
    ensures open != [] ==> !Paired(Opened(open))
  {
    if open != [] {
      assert Opened(open)[0] == Tag(open[0], true) && Tag(open[0], false) !in Opened(open);
    }
  }

  /** A closing tag that closes what was opened last: the pair can be taken out. */
  lemma {:induction false} RightClosing(open: seq<nat>, ts: seq<Token>)
    requires open != [] && ts != [] && ts[0] == Tag(open[|open| - 1], false) && Paired(Opened(open) + ts)
    ensures var shorter := Opened(open[..|open| - 1]) + ts[1..];
            Paired(shorter) && (Untangled(Opened(open) + ts) <==> Untangled(shorter))
  {
    var a, i, rest := Opened(open[..|open| - 1]), open[|open| - 1], ts[1..];
    assert a + [Tag(i, true), Tag(i, false)] + rest == Opened(open) + ts;
    PairedWithout(a, i, rest);
    UntangledWithout(a, i, rest);
  }

  /** Brackets that come in pairs are balanced if and only if each opens first and no two cross. */
  lemma {:induction false} BalancedExact(open: seq<nat>, ts: seq<Token>)
    requires Paired(Opened(open) + ts)
    ensures Balanced(ts, open) <==> Untangled(Opened(open) + ts)
    decreases |ts|
  {
    if ts == [] {
      assert Opened(open) + ts == Opened(open);
      NeverClosed(open);
    } else {
      assert (Opened(open) + ts)[|open|] == ts[0];
      var i, rest := ts[0].entity, ts[1..];
      if ts[0].opening {
        assert Opened(open + [i]) + rest == Opened(open) + ts;
        BalancedExact(open + [i], rest);
      } else {
        if open == [] || open[|open| - 1] != i {
          assert Opened(open) + [Tag(i, false)] + rest == Opened(open) + ts;
          WrongClosing(open, i, rest);
        } else {
          RightClosing(open, ts);
          BalancedExact(open[..|open| - 1], rest);
        }
      }
    }
  }

  // The tags of a rendered text

  function TagsOf(ts: seq<Token>): seq<Token>
  {
    if ts == [] then [] else (if ts[0].Tag? then [ts[0]] else []) + TagsOf(ts[1..])
  }

  lemma {:induction false} TagsConcat(a: seq<Token>, b: seq<Token>)
    ensures TagsOf(a + b) == TagsOf(a) + TagsOf(b)
  {
    if a == [] {
      assert a + b == b;
    } else {
      assert (a + b)[1..] == a[1..] + b;
      TagsConcat(a[1..], b);
    }
  }

  lemma {:induction false} TagsLift(s: string)
    ensures TagsOf(Lift(s)) == []
  {
    if s == "" {
    } else {
      assert Lift(s)[1..] == Lift(s[1..]);
      TagsLift(s[1..]);
    }
  }

  lemma {:induction false} BalancedTags(ts: seq<Token>, open: seq<nat>)
    ensures Balanced(ts, open) <==> Balanced(TagsOf(ts), open)
    decreases |ts|
  {
    if ts == [] {
    } else {
      var rest := TagsOf(ts[1..]);
      if ts[0].Plain? {
        assert TagsOf(ts) == [] + rest == rest;
        BalancedTags(ts[1..], open);
      } else {
        assert ([ts[0]] + rest)[1..] == rest;
        if ts[0].opening {
          BalancedTags(ts[1..], open + [ts[0].entity]);
        } else if open != [] {
          BalancedTags(ts[1..], open[..|open| - 1]);
        }
      }
    }
  }

  /** The tags that edits bring in, in their order. */
  function TagsIn(es: seq<Edit<Token>>): seq<Token>
  {
    if es == [] then [] else TagsOf(es[0].text) + TagsIn(es[1..])
  }

  lemma {:induction false} TagsInConcat(a: seq<Edit<Token>>, b: seq<Edit<Token>>)
    ensures TagsIn(a + b) == TagsIn(a) + TagsIn(b)
  {
    if a == [] {
      assert a + b == b;
    } else {
      assert (a + b)[1..] == a[1..] + b;
      TagsInConcat(a[1..], b);
      var x, y, z := TagsOf(a[0].text), TagsIn(a[1..]), TagsIn(b);
      assert (x + y) + z == x + (y + z);
    }
  }

  lemma {:induction false} TagsPermuted(a: seq<Edit<Token>>, b: seq<Edit<Token>>)
    requires multiset(a) == multiset(b)
    ensures multiset(TagsIn(a)) == multiset(TagsIn(b))
  {
    if a == [] {
      assert |multiset(b)| == 0;
    } else {
      var x := a[0];
      assert a == [x] + a[1..];
      assert x in multiset(a) && x in multiset(b);
      var j :| 0 <= j < |b| && b[j] == x;
      var l, r := b[..j], b[j + 1..];
      assert b == l + [x] + r;
      OneLess(x, a[1..], l, r);
      TagsPermuted(a[1..], l + r);
      TakenOut(l, x, r);
    }
  }

  lemma {:induction false} TakenOut(l: seq<Edit<Token>>, x: Edit<Token>, r: seq<Edit<Token>>)
    ensures multiset(TagsIn(l + [x] + r)) == multiset(TagsOf(x.text)) + multiset(TagsIn(l + r))
  {
    TagsInConcat(l + [x], r);
    TagsInConcat(l, [x]);
    TagsInConcat(l, r);
    assert [x][1..] == [];
    assert TagsIn([x]) == TagsOf(x.text) + [];
  }

  /** Rendering interleaves them with text. */
  lemma {:induction false} TagsOfSubstitute(s: string, es: seq<Edit<Token>>, lo: int, hi: int)
    requires 0 <= lo && hi <= |s| && Ordered(es, lo, hi)
    ensures TagsOf(Substitute(Lift(s), es, lo, hi)) == TagsIn(es)
  {
    OrderedBounds(es, lo, hi);
    if es == [] {
      assert Lift(s)[lo..hi] == Lift(s[lo..hi]);
      TagsLift(s[lo..hi]);
    } else {
      SubstituteHead(Lift(s), es, lo, hi);
      TagsOfSubstitute(s, es[1..], es[0].End(), hi);
      var head, rest := s[lo..es[0].offset], Substitute(Lift(s), es[1..], es[0].End(), hi);
      assert Lift(s)[lo..es[0].offset] == Lift(head);
      TagsConcat(Lift(head) + es[0].text, rest);
      TagsConcat(Lift(head), es[0].text);
      TagsLift(head);
    }
  }

  // Entities that are nested or disjoint, boundaries shared or not

  ghost predicate NestedOrDisjoint(a: Entity, b: Entity)
  {
    || a.End() <= b.offset || b.End() <= a.offset
    || (a.offset <= b.offset && b.End() <= a.End()) || (b.offset <= a.offset && a.End() <= b.End())
  }

  /** The tagged entities are not empty, lie in the text, and do not cross. */
  ghost predicate Laminar(ft: FormattedText)
  {
    && (forall i :: 0 <= i < |ft.entities| && Tagged(ft, i) ==>
          0 <= ft.entities[i].offset && 0 < ft.entities[i].length && ft.entities[i].End() <= |ft.plainText|)
    && (forall i, j :: 0 <= i < |ft.entities| && 0 <= j < |ft.entities| && Tagged(ft, i) && Tagged(ft, j) ==>
          NestedOrDisjoint(ft.entities[i], ft.entities[j]))
  }

  ghost predicate IsTag(ft: FormattedText, i: nat)
  {
    i < |ft.entities| && Tagged(ft, i)
  }

  /** At every shared boundary: of openings the outer one first, of closings the inner one first, of equal entities
      the one opened first is closed last, and a closing before an opening. */
  ghost predicate TiesNest(ft: FormattedText, ts: seq<Token>)
  {
    forall i: nat, j: nat :: IsTag(ft, i) && IsTag(ft, j) && i != j ==> PairNests(ft, ts, i, j)
  }

  ghost predicate PairNests(ft: FormattedText, ts: seq<Token>, i: nat, j: nat)
    requires i < |ft.entities| && j < |ft.entities|
  {
    var a, b := ft.entities[i], ft.entities[j];
    && (a.offset == b.offset && Before(ts, Tag(i, true), Tag(j, true)) ==>
          b.End() <= a.End() && (b.End() == a.End() ==> Before(ts, Tag(j, false), Tag(i, false))))
    && (a.End() == b.End() && Before(ts, Tag(i, false), Tag(j, false)) ==> b.offset <= a.offset)
    && (b.End() == a.offset ==> Before(ts, Tag(j, false), Tag(i, true)))
  }

  /** Where a tag stands. */
  function TagOffset(ft: FormattedText, t: Token): int
    requires t.Tag? && t.entity < |ft.entities|
  {
    if t.opening then ft.entities[t.entity].offset else ft.entities[t.entity].End()
  }

  /** The tags come in the order of their offsets, and are those of all tagged entities. */
  ghost predicate InPlace(ft: FormattedText, ts: seq<Token>)
  {
    && Paired(ts)
    && (forall i: nat :: Tag(i, true) in ts <==> IsTag(ft, i))
    && (forall p, q :: 0 <= p < q < |ts| ==> NotBehind(ft, ts[p], ts[q]))
  }

  predicate NotBehind(ft: FormattedText, x: Token, y: Token)
  {
    x.Tag? && y.Tag? && x.entity < |ft.entities| && y.entity < |ft.entities| ==> TagOffset(ft, x) <= TagOffset(ft, y)
  }

  lemma {:induction false} BeforeOffset(ft: FormattedText, ts: seq<Token>, x: Token, y: Token)
    requires InPlace(ft, ts) && x.Tag? && y.Tag? && IsTag(ft, x.entity) && IsTag(ft, y.entity)
    ensures Before(ts, x, y) ==> TagOffset(ft, x) <= TagOffset(ft, y)
    ensures TagOffset(ft, x) < TagOffset(ft, y) ==> Before(ts, x, y)
  {
    assert x in ts && y in ts by {
      assert Tag(x.entity, true) in ts && Tag(y.entity, true) in ts;
    }
    if TagOffset(ft, x) < TagOffset(ft, y) {
      BeforeTotal(ts, x, y);
    }
  }

  lemma {:induction false} CrossAtTie(ft: FormattedText, ts: seq<Token>, i: nat, j: nat)
    requires Laminar(ft) && InPlace(ft, ts) && IsTag(ft, i) && IsTag(ft, j) && Cross(ts, i, j)
    ensures !(PairNests(ft, ts, i, j) && PairNests(ft, ts, j, i))
  {
    BeforeOffset(ft, ts, Tag(i, true), Tag(j, true));
    BeforeOffset(ft, ts, Tag(j, true), Tag(i, false));
    BeforeOffset(ft, ts, Tag(i, false), Tag(j, false));
    BeforeOnce(ts, Tag(i, true), Tag(j, true));
    BeforeOnce(ts, Tag(j, true), Tag(i, false));
    BeforeOnce(ts, Tag(i, false), Tag(j, false));
  }

  lemma {:induction false} UntangledNests(ft: FormattedText, ts: seq<Token>, i: nat, j: nat)
    requires Laminar(ft) && InPlace(ft, ts) && IsTag(ft, i) && IsTag(ft, j) && i != j && Untangled(ts)
    ensures PairNests(ft, ts, i, j)
  {
    var oi, ci, oj, cj := Tag(i, true), Tag(i, false), Tag(j, true), Tag(j, false);
    assert oi in ts && ci in ts && oj in ts && cj in ts;
    BeforeOffset(ft, ts, oi, cj);
    BeforeOffset(ft, ts, oj, ci);
    BeforeOffset(ft, ts, oi, oj);
    BeforeOffset(ft, ts, oj, oi);
    BeforeOffset(ft, ts, ci, cj);
    BeforeTotal(ts, ci, cj);
    BeforeTotal(ts, cj, oi);
    assert !Cross(ts, i, j) && !Cross(ts, j, i);
  }

  /** For tags in their places, being untangled is a matter of the shared boundaries. */
  lemma {:induction false} UntangledExact(ft: FormattedText, ts: seq<Token>)
    requires Laminar(ft) && InPlace(ft, ts)
    ensures Untangled(ts) <==> TiesNest(ft, ts)
  {
    if Untangled(ts) {
      forall i: nat, j: nat | IsTag(ft, i) && IsTag(ft, j) && i != j ensures PairNests(ft, ts, i, j) {
        UntangledNests(ft, ts, i, j);
      }
    }
    if TiesNest(ft, ts) {
      forall i: nat | Tag(i, true) in ts ensures Before(ts, Tag(i, true), Tag(i, false)) {
        BeforeOffset(ft, ts, Tag(i, true), Tag(i, false));
      }
      forall i: nat, j: nat ensures !Cross(ts, i, j) {
        if Cross(ts, i, j) {
          BeforeOnce(ts, Tag(i, true), Tag(j, true));
          CrossAtTie(ft, ts, i, j);
        }
      }
    }
  }

  // From the edits to the tags

  lemma {:induction false} NoTagsLifted(es: seq<Edit<char>>)
    ensures TagsIn(LiftEdits(es)) == []
  {
    if es == [] {
    } else {
      assert LiftEdits(es)[1..] == LiftEdits(es[1..]);
      TagsLift(es[0].text);
      NoTagsLifted(es[1..]);
    }
  }

  ghost predicate TagBelow(ft: FormattedText, n: nat, t: Token)
    requires n <= |ft.entities|
  {
    t.Tag? && t.entity < n && IsTag(ft, t.entity)
  }

  /** The tags of the first n tagged entities, each once. */
  ghost predicate TagsBelow(ft: FormattedText, n: nat, ts: seq<Token>)
    requires n <= |ft.entities|
  {
    PairwiseBy(Differ, ts) && forall t :: t in ts <==> TagBelow(ft, n, t)
  }

  lemma {:induction false} TagsInNext(ft: FormattedText, i: nat, before: seq<Token>)
    requires i < |ft.entities| && TagsBelow(ft, i, before)
    ensures TagsBelow(ft, i + 1, before + if IsTag(ft, i) then [Tag(i, true), Tag(i, false)] else [])
  {
    var own := if IsTag(ft, i) then [Tag(i, true), Tag(i, false)] else [];
    forall p, q | 0 <= p < |before| && 0 <= q < |own| ensures Differ(before[p], own[q]) {
      assert before[p] in before && TagBelow(ft, i, before[p]);
    }
    PairwiseConcat(Differ, before, own);
    forall t ensures t in before + own <==> TagBelow(ft, i + 1, t) {
      assert t in own <==> t.Tag? && t.entity == i && IsTag(ft, i);
    }
  }

  lemma {:induction false} OwnTags(ft: FormattedText, i: nat)
    requires i < |ft.entities|
    ensures TagsIn(TokensOf(ft, i)) == if IsTag(ft, i) then [Tag(i, true), Tag(i, false)] else []
  {
    if IsTag(ft, i) {
      var es := [OpenEdit(ft, i), CloseEdit(ft, i)];
      assert es[1..] == [CloseEdit(ft, i)] && es[1..][1..] == [];
      assert TagsOf([Tag(i, true)]) == [Tag(i, true)] && TagsOf([Tag(i, false)]) == [Tag(i, false)];
      assert TagsIn(es[1..]) == [Tag(i, false)];
    }
  }

  lemma {:induction false} TagsInStep(ft: FormattedText, i: nat)
    requires i < |ft.entities|
    ensures TagsIn(TagTokens(ft, i + 1))
            == TagsIn(TagTokens(ft, i)) + if IsTag(ft, i) then [Tag(i, true), Tag(i, false)] else []
  {
    TagsInConcat(TagTokens(ft, i), TokensOf(ft, i));
    OwnTags(ft, i);
  }

  lemma {:induction false} TagsInTokens(ft: FormattedText, n: nat)
    requires n <= |ft.entities|
    ensures TagsBelow(ft, n, TagsIn(TagTokens(ft, n)))
  {
    if n == 0 {
      assert TagTokens(ft, 0) == [];
    } else {
      TagsInTokens(ft, n - 1);
      TagsInStep(ft, n - 1);
      TagsInNext(ft, n - 1, TagsIn(TagTokens(ft, n - 1)));
    }
  }

  /** An edit with at most one tag, which stands where the entity begins or ends. */
  ghost predicate TagOrText(ft: FormattedText, e: Edit<Token>)
  {
    || TagsOf(e.text) == []
    || (exists i: nat :: IsTag(ft, i) && (e == OpenEdit(ft, i) || e == CloseEdit(ft, i)))
  }

  lemma {:induction false} OneTag(ft: FormattedText, e: Edit<Token>)
    requires TagOrText(ft, e) && TagsOf(e.text) != []
    ensures |TagsOf(e.text)| == 1 && e.length == 0
    ensures var t := TagsOf(e.text)[0]; t.Tag? && t.entity < |ft.entities| && TagOffset(ft, t) == e.offset
  {
    var i: nat :| IsTag(ft, i) && (e == OpenEdit(ft, i) || e == CloseEdit(ft, i));
    assert e.text[1..] == [];
  }

  /** The tags come in the order of their offsets, none of which is before `lo`. */
  ghost predicate OffsetsFrom(ft: FormattedText, ts: seq<Token>, lo: int)
  {
    && (forall t :: t in ts ==> t.Tag? && t.entity < |ft.entities| && lo <= TagOffset(ft, t))
    && (forall p, q :: 0 <= p < q < |ts| ==> NotBehind(ft, ts[p], ts[q]))
  }

  lemma {:induction false} OffsetsFirst(ft: FormattedText, t: Token, tail: seq<Token>, lo: int)
    requires t.Tag? && t.entity < |ft.entities| && lo <= TagOffset(ft, t) && OffsetsFrom(ft, tail, TagOffset(ft, t))
    ensures OffsetsFrom(ft, [t] + tail, lo)
  {
    var ts := [t] + tail;
    forall p, q | 0 <= p < q < |ts| ensures NotBehind(ft, ts[p], ts[q]) {
      assert ts[q] == tail[q - 1] && ts[q] in tail;
      if p > 0 { assert NotBehind(ft, tail[p - 1], tail[q - 1]); }
    }
  }

  lemma {:induction false} TagsOrdered(ft: FormattedText, es: seq<Edit<Token>>, lo: int)
    requires OneAfterAnother(es) && forall k :: 0 <= k < |es| ==> TagOrText(ft, es[k]) && lo <= es[k].offset
    ensures OffsetsFrom(ft, TagsIn(es), lo)
  {
    if es == [] {
    } else {
      var e, rest := es[0], es[1..];
      assert forall k :: 0 <= k < |rest| ==> rest[k] == es[k + 1];
      if TagsOf(e.text) == [] {
        TagsOrdered(ft, rest, lo);
        assert TagsIn(es) == TagsIn(rest);
      } else {
        OneTag(ft, e);
        TagsOrdered(ft, rest, e.offset);
        var t := TagsOf(e.text)[0];
        assert TagsIn(es) == [t] + TagsIn(rest);
        OffsetsFirst(ft, t, TagsIn(rest), lo);
      }
    }
  }

  lemma {:induction false} EditIsTagOrText(ft: FormattedText, escape: bool, e: Edit<Token>)
    requires e in TokenEdits(ft, escape)
    ensures TagOrText(ft, e)
  {
    TagOrEscape(ft, escape, e);
    if AllPlain(e.text) {
      var s :| e.text == Lift(s);
      TagsLift(s);
    } else {
      var i: nat :| i < |ft.entities| && Tagged(ft, i) && (e == OpenEdit(ft, i) || e == CloseEdit(ft, i));
      assert IsTag(ft, i);
    }
  }

  lemma {:induction false} TagsOfAll(ft: FormattedText, escape: bool)
    ensures TagsBelow(ft, |ft.entities|, TagsIn(TokenEdits(ft, escape)))
  {
    var tags, escapes := TagTokens(ft, |ft.entities|), EscapeEdits(ft.plainText, 0);
    TagsInConcat(tags, if escape then LiftEdits(escapes) else []);
    NoTagsLifted(escapes);
    assert TagsIn(tags) + [] == TagsIn(tags);
    TagsInTokens(ft, |ft.entities|);
  }

  lemma {:induction false} PlacedTags(ft: FormattedText, ts: seq<Token>)
    requires TagsBelow(ft, |ft.entities|, ts)
    requires forall p, q :: 0 <= p < q < |ts| ==> NotBehind(ft, ts[p], ts[q])
    ensures InPlace(ft, ts)
  {
    forall i: nat ensures Tag(i, true) in ts <==> IsTag(ft, i) {
      assert Tag(i, true) in ts <==> TagBelow(ft, |ft.entities|, Tag(i, true));
    }
    forall i: nat ensures Tag(i, true) in ts <==> Tag(i, false) in ts {
      assert Tag(i, false) in ts <==> TagBelow(ft, |ft.entities|, Tag(i, false));
    }
  }

  lemma {:induction false} TagsInPlace(ft: FormattedText, escape: bool, asc: seq<Edit<Token>>)
    requires multiset(asc) == multiset(TokenEdits(ft, escape)) && OneAfterAnother(asc)
    requires forall k :: 0 <= k < |asc| ==> 0 <= asc[k].offset
    ensures InPlace(ft, TagsIn(asc))
  {
    TagsOfAll(ft, escape);
    TagsKept(ft, TokenEdits(ft, escape), asc);
    PermutedMembers(TokenEdits(ft, escape), asc);
    forall k | 0 <= k < |asc| ensures TagOrText(ft, asc[k]) {
      assert asc[k] in asc;
      EditIsTagOrText(ft, escape, asc[k]);
    }
    TagsOrdered(ft, asc, 0);
    PlacedTags(ft, TagsIn(asc));
  }

  lemma {:induction false} TagsKept(ft: FormattedText, all: seq<Edit<Token>>, asc: seq<Edit<Token>>)
    requires multiset(asc) == multiset(all) && TagsBelow(ft, |ft.entities|, TagsIn(all))
    ensures TagsBelow(ft, |ft.entities|, TagsIn(asc))
  {
    TagsPermuted(all, asc);
    PairwisePermuted(Differ, TagsIn(all), TagsIn(asc));
    PermutedMembers(TagsIn(all), TagsIn(asc));
  }

  lemma {:induction false} TagClearOfEscape(ft: FormattedText, e: Edit<Token>, x: Edit<char>)
    requires SplitsNoBreak(ft) && IsTagEdit(ft, |ft.entities|, e)
    requires 0 <= x.offset && (x.length == 1 || (x.length == 2 && CrlfAt(ft.plainText, x.offset)))
    ensures Clear(e, LiftEdit(x))
  {
    var i: nat :| i < |ft.entities| && Tagged(ft, i) && (e == OpenEdit(ft, i) || e == CloseEdit(ft, i));
    if x.length == 2 {
      assert CrlfAt(ft.plainText, x.offset);
    }
  }

  lemma {:induction false} TagTokensClear(ft: FormattedText, n: nat)
    requires n <= |ft.entities| && Laminar(ft)
    ensures PairwiseBy(Clear, TagTokens(ft, n)) && InText(TagTokens(ft, n), |ft.plainText|)
  {
    var tags := TagTokens(ft, n);
    forall k | 0 <= k < |tags| ensures IsTagEdit(ft, n, tags[k]) {
      assert tags[k] in tags;
      TagTokenMembers(ft, n, tags[k]);
    }
    forall i, j | 0 <= i < j < |tags| ensures Clear(tags[i], tags[j]) {
      assert IsTagEdit(ft, n, tags[i]) && IsTagEdit(ft, n, tags[j]);
    }
  }

  lemma {:induction false} EscapesClear(ft: FormattedText)
    ensures var lifted := LiftEdits(EscapeEdits(ft.plainText, 0));
            PairwiseBy(Clear, lifted) && InText(lifted, |ft.plainText|)
  {
    var escapes := EscapeEdits(ft.plainText, 0);
    EscapesApart(ft.plainText);
    LiftedApart(escapes, |ft.plainText|);
    var lifted := LiftEdits(escapes);
    forall i, j | 0 <= i < j < |lifted| ensures Clear(lifted[i], lifted[j]) {
      assert Apart(lifted[i], lifted[j]);
    }
  }

  lemma {:induction false} TagsClearOfEscapes(ft: FormattedText, i: int, j: int)
    requires SplitsNoBreak(ft) && 0 <= i < |TagTokens(ft, |ft.entities|)| && 0 <= j < |EscapeEdits(ft.plainText, 0)|
    ensures Clear(TagTokens(ft, |ft.entities|)[i], LiftEdits(EscapeEdits(ft.plainText, 0))[j])
  {
    var e := TagTokens(ft, |ft.entities|)[i];
    assert e in TagTokens(ft, |ft.entities|);
    TagTokenMembers(ft, |ft.entities|, e);
    EscapeShape(ft.plainText, j);
    TagClearOfEscape(ft, e, EscapeEdits(ft.plainText, 0)[j]);
  }

  lemma {:induction false} TokensClear(ft: FormattedText, escape: bool)
    requires Laminar(ft) && (escape ==> SplitsNoBreak(ft))
    ensures PairwiseBy(Clear, TokenEdits(ft, escape)) && InText(TokenEdits(ft, escape), |ft.plainText|)
  {
    var tags := TagTokens(ft, |ft.entities|);
    TagTokensClear(ft, |ft.entities|);
    if escape {
      var lifted := LiftEdits(EscapeEdits(ft.plainText, 0));
      EscapesClear(ft);
      forall i, j | 0 <= i < |tags| && 0 <= j < |lifted| ensures Clear(tags[i], lifted[j]) {
        TagsClearOfEscapes(ft, i, j);
      }
      PairwiseConcat(Clear, tags, lifted);
      InTextConcat(tags, lifted, |ft.plainText|);
      assert TokenEdits(ft, escape) == tags + lifted;
    } else {
      assert TokenEdits(ft, escape) == tags + [] == tags;
    }
  }

  /** For entities that are nested or disjoint, boundaries shared or not, and any order of the edits that the comparator
      allows: the tags of the rendered text are balanced if and only if the ties are broken the right way. */
  lemma {:induction false} TagsBalancedExact(ft: FormattedText, escape: bool, sorted: seq<Edit<Token>>)
    requires Laminar(ft) && (escape ==> SplitsNoBreak(ft))
    requires multiset(sorted) == multiset(TokenEdits(ft, escape)) && Sorted(sorted)
    ensures forall k :: 0 <= k < |sorted| ==> sorted[k].length >= 0
    ensures Balanced(ApplyAll(Lift(ft.plainText), sorted, 0), []) <==> TiesNest(ft, TagsIn(Reverse(sorted)))
  {
    var asc, text := Reverse(sorted), Lift(ft.plainText);
    TokensClear(ft, escape);
    ClearEditsSubstitute(text, TokenEdits(ft, escape), sorted);
    OrderedLengths(asc, 0, |text|);
    ReversedMultiset(sorted);
    TagsInPlace(ft, escape, asc);
    UntangledExact(ft, TagsIn(asc));
    assert Opened([]) + TagsIn(asc) == TagsIn(asc);
    BalancedExact([], TagsIn(asc));
    BalancedTags(ApplyAll(text, sorted, 0), []);
    TagsOfSubstitute(ft.plainText, asc, 0, |text|);
  }

  lemma {:induction false} ReversedMultiset(s: seq<Edit<Token>>)
    ensures multiset(Reverse(s)) == multiset(s)
  {
    if s == [] {
      assert Reverse(s) == [];
    } else {
      ReversedMultiset(s[1..]);
      assert Reverse(s) == Reverse(s[1..]) + [s[0]];
      assert s == [s[0]] + s[1..];
    }
  }
}
