/** The parsed text of nested entities: spelled tokens, balanced tags, each pair around the rendering of its own
    interval, and the escaped plain text once the tags are dropped. */
module Nesting {
  import opened Lists
  import opened Substitution
  import opened FormattedTexts
  import opened MarkupTokens

  lemma {:induction false} InSequenceApart<T>(es: seq<Edit<T>>)
    requires InSequence(es)
    ensures PairwiseApart(es)
  {
  }

  lemma {:induction false} EscapesApart(s: string)
    ensures PairwiseApart(EscapeEdits(s, 0)) && InText(EscapeEdits(s, 0), |s|)
  {
    ScanFacts(s, 0);
    EscapesPermuted(s, 0);
    InSequenceApart(ScanEdits(s, 0));
    ApartPermuted(ScanEdits(s, 0), EscapeEdits(s, 0));
    forall k | 0 <= k < |EscapeEdits(s, 0)|
      ensures 0 <= EscapeEdits(s, 0)[k].offset && 0 <= EscapeEdits(s, 0)[k].length && EscapeEdits(s, 0)[k].End() <= |s|
    {
      EscapeShape(s, k);
    }
  }

  lemma {:induction false} EscapeShape(s: string, k: int)
    requires 0 <= k < |EscapeEdits(s, 0)|
    ensures var e := EscapeEdits(s, 0)[k];
            0 <= e.offset && e.End() <= |s| && (e.length == 1 || (e.length == 2 && CrlfAt(s, e.offset)))
  {
    var scan, e := ScanEdits(s, 0), EscapeEdits(s, 0)[k];
    ScanFacts(s, 0);
    EscapesPermuted(s, 0);
    assert e in multiset(EscapeEdits(s, 0));
    assert e in multiset(scan);
    var j :| 0 <= j < |scan| && scan[j] == e;
  }

  lemma {:induction false} LiftedApart(es: seq<Edit<char>>, n: int)
    requires PairwiseApart(es) && InText(es, n)
    ensures PairwiseApart(LiftEdits(es)) && InText(LiftEdits(es), n)
  {
    forall i, j | 0 <= i < j < |es| ensures Apart(LiftEdits(es)[i], LiftEdits(es)[j]) {
      assert Apart(es[i], es[j]);
    }
  }

  lemma {:induction false} TagAndEscapeApart(ft: FormattedText, e: Edit<Token>, x: Edit<char>)
    requires WellNested(ft) && SplitsNoBreak(ft) && IsTagEdit(ft, |ft.entities|, e)
    requires 0 <= x.offset && (x.length == 1 || (x.length == 2 && CrlfAt(ft.plainText, x.offset)))
    ensures Apart(e, LiftEdit(x))
  {
    var i: nat :| i < |ft.entities| && Tagged(ft, i) && (e == OpenEdit(ft, i) || e == CloseEdit(ft, i));
    if x.length == 2 {
      assert CrlfAt(ft.plainText, x.offset);
      assert e.offset != x.offset + 1;
    }
  }

  lemma {:induction false} TokensApart(ft: FormattedText, escape: bool)
    requires WellNested(ft) && (escape ==> SplitsNoBreak(ft))
    ensures PairwiseApart(TokenEdits(ft, escape)) && InText(TokenEdits(ft, escape), |ft.plainText|)
  {
    var n := |ft.entities|;
    var tags := TagTokens(ft, n);
    TagTokensApart(ft, n);
    if escape {
      var escapes := EscapeEdits(ft.plainText, 0);
      var lifted := LiftEdits(escapes);
      EscapesApart(ft.plainText);
      LiftedApart(escapes, |ft.plainText|);
      forall i, j | 0 <= i < |tags| && 0 <= j < |lifted| ensures Apart(tags[i], lifted[j]) {
        TagTokenMembers(ft, n, tags[i]);
        assert tags[i] in tags;
        EscapeShape(ft.plainText, j);
        TagAndEscapeApart(ft, tags[i], escapes[j]);
      }
      ApartConcat(tags, lifted);
      InTextConcat(tags, lifted, |ft.plainText|);
    } else {
      assert tags + [] == tags;
    }
  }

  /** All edits in the order of the text. */
  ghost function InTextOrder(ft: FormattedText, escape: bool): seq<Edit<Token>>
  {
    Reverse(SortedCopy(TokenEdits(ft, escape)))
  }

  lemma {:induction false} TextOrderFacts(ft: FormattedText, escape: bool)
    requires WellNested(ft) && (escape ==> SplitsNoBreak(ft))
    ensures InSequence(InTextOrder(ft, escape)) && Ordered(InTextOrder(ft, escape), 0, |ft.plainText|)
    ensures forall e :: e in InTextOrder(ft, escape) <==> e in TokenEdits(ft, escape)
  {
    var es := TokenEdits(ft, escape);
    TokensApart(ft, escape);
    SortedCopyFacts(es);
    SortedEditsSubstitute(Lift(ft.plainText), es, SortedCopy(es));
    ReverseMembers(SortedCopy(es));
    PermutedMembers(SortedCopy(es), es);
  }

  /** The parsed text as tokens. */
  ghost function Rendered(ft: FormattedText, escape: bool): seq<Token>
    requires WellNested(ft) && (escape ==> SplitsNoBreak(ft))
  {
    TextOrderFacts(ft, escape);
    Substitute(Lift(ft.plainText), InTextOrder(ft, escape), 0, |ft.plainText|)
  }

  lemma {:induction false} SpellInSequence(tags: seq<(string, string)>, es: seq<Edit<Token>>)
    requires InSequence(es)
    ensures InSequence(SpellEdits(tags, es))
  {
    forall i, j | 0 <= i < j < |es| ensures Precedes(SpellEdits(tags, es)[i], SpellEdits(tags, es)[j]) {
      assert Precedes(es[i], es[j]);
    }
  }

  lemma {:induction false} SpellMembers(tags: seq<(string, string)>, a: seq<Edit<Token>>, b: seq<Edit<Token>>,
        e: Edit<char>)
    requires forall x :: x in a <==> x in b
    ensures e in SpellEdits(tags, a) <==> e in SpellEdits(tags, b)
  {
    if e in SpellEdits(tags, a) {
      var k :| 0 <= k < |a| && SpellEdits(tags, a)[k] == e;
      var x := a[k];
      assert x in b;
      var m :| 0 <= m < |b| && b[m] == x;
      assert SpellEdits(tags, b)[m] == e;
    }
    if e in SpellEdits(tags, b) {
      var k :| 0 <= k < |b| && SpellEdits(tags, b)[k] == e;
      var x := b[k];
      assert x in a;
      var m :| 0 <= m < |a| && a[m] == x;
      assert SpellEdits(tags, a)[m] == e;
    }
  }

  /** However the sort breaks its ties, the string that is parsed out is the tokens spelled out. */
  lemma {:induction false} ParseIsSpelled(ft: FormattedText, escape: bool, sorted: seq<Edit<char>>)
    requires LengthsOk(ft) && NoReplacements(ft) && WellNested(ft) && (escape ==> SplitsNoBreak(ft))
    requires multiset(sorted) == multiset(AllEdits(ft, escape)) && Sorted(sorted)
    ensures forall k :: 0 <= k < |sorted| ==> sorted[k].length >= 0
    ensures ApplyAll(ft.plainText, sorted, 0) == Spell(TagTexts(ft), Rendered(ft, escape))
  {
    var tokens, asc := TokenEdits(ft, escape), InTextOrder(ft, escape);
    var n := |ft.plainText|;
    SpellTokenEdits(ft, escape);
    TokensApart(ft, escape);
    SpelledApart(TagTexts(ft), tokens, n);
    ParseSubstitutes(ft, escape, sorted);
    TextOrderFacts(ft, escape);
    SpellSubstitute(TagTexts(ft), ft.plainText, asc, 0, n);
    SpellInSequence(TagTexts(ft), asc);
    ReverseMembers(sorted);
    PermutedMembers(sorted, AllEdits(ft, escape));
    forall e ensures e in Reverse(sorted) <==> e in SpellEdits(TagTexts(ft), asc) {
      SpellMembers(TagTexts(ft), asc, tokens, e);
    }
    InSequenceUnique(Reverse(sorted), SpellEdits(TagTexts(ft), asc));
  }

  lemma {:induction false} SpelledApart(tags: seq<(string, string)>, es: seq<Edit<Token>>, n: int)
    requires PairwiseApart(es) && InText(es, n)
    ensures PairwiseApart(SpellEdits(tags, es)) && InText(SpellEdits(tags, es), n)
  {
    forall i, j | 0 <= i < j < |es| ensures Apart(SpellEdits(tags, es)[i], SpellEdits(tags, es)[j]) {
      assert Apart(es[i], es[j]);
    }
  }

  // Balanced tags

  ghost predicate AllPlain(ts: seq<Token>)
  {
    exists s: string :: ts == Lift(s)
  }

  /** `done` lies before `es`; together they are all tags of the tagged entities and otherwise plain edits. */
  ghost predicate Cut(ft: FormattedText, done: seq<Edit<Token>>, es: seq<Edit<Token>>)
  {
    && WellNested(ft)
    && InSequence(done + es)
    && (forall k :: 0 <= k < |es| ==> IsTagEdit(ft, |ft.entities|, es[k]) || AllPlain(es[k].text))
    && (forall i: nat :: i < |ft.entities| && Tagged(ft, i) ==>
          OpenEdit(ft, i) in done + es && CloseEdit(ft, i) in done + es)
  }

  lemma {:induction false} CutNext(ft: FormattedText, done: seq<Edit<Token>>, es: seq<Edit<Token>>)
    requires Cut(ft, done, es) && es != []
    ensures Cut(ft, done + [es[0]], es[1..])
  {
    assert done + [es[0]] + es[1..] == done + es;
  }

  lemma {:induction false} AcrossTheCut(done: seq<Edit<Token>>, es: seq<Edit<Token>>, x: Edit<Token>, y: Edit<Token>)
    requires InSequence(done + es) && x in done && y in es
    ensures Precedes(x, y)
  {
    var i :| 0 <= i < |done| && done[i] == x;
    var j :| 0 <= j < |es| && es[j] == y;
    assert (done + es)[i] == x && (done + es)[|done| + j] == y;
  }

  lemma {:induction false} HeadFirst(done: seq<Edit<Token>>, es: seq<Edit<Token>>, y: Edit<Token>)
    requires InSequence(done + es) && es != [] && y in es && y != es[0]
    ensures Precedes(es[0], y)
  {
    var j :| 0 <= j < |es| && es[j] == y;
    assert (done + es)[|done|] == es[0] && (done + es)[|done| + j] == y;
  }

  /** `open` lists the entities opened in `done` and closed in `es`, the outermost first. */
  ghost predicate OpenNow(ft: FormattedText, done: seq<Edit<Token>>, es: seq<Edit<Token>>, open: seq<nat>)
  {
    && (forall a :: 0 <= a < |open| ==>
          && open[a] < |ft.entities| && Tagged(ft, open[a])
          && OpenEdit(ft, open[a]) in done && CloseEdit(ft, open[a]) in es)
    && (forall i: nat :: i < |ft.entities| && Tagged(ft, i) && OpenEdit(ft, i) in done && CloseEdit(ft, i) in es ==>
          i in open)
    && (forall a, b :: 0 <= a < b < |open| ==> ft.entities[open[b]].End() < ft.entities[open[a]].End())
  }

  lemma {:induction false} PlainStep(ft: FormattedText, done: seq<Edit<Token>>, es: seq<Edit<Token>>, open: seq<nat>)
    requires Cut(ft, done, es) && OpenNow(ft, done, es, open) && es != [] && AllPlain(es[0].text)
    ensures OpenNow(ft, done + [es[0]], es[1..], open)
  {
    var s :| es[0].text == Lift(s);
    assert forall t :: t in Lift(s) ==> t.Plain?;
    forall i: nat | i < |ft.entities| ensures es[0] != OpenEdit(ft, i) && es[0] != CloseEdit(ft, i) {
      assert Tag(i, true) in OpenEdit(ft, i).text && Tag(i, false) in CloseEdit(ft, i).text;
    }
    assert es == [es[0]] + es[1..];
  }

  lemma {:induction false} OpenStep(ft: FormattedText, done: seq<Edit<Token>>, es: seq<Edit<Token>>, open: seq<nat>,
        i: nat)
    requires Cut(ft, done, es) && OpenNow(ft, done, es, open) && es != []
    requires i < |ft.entities| && Tagged(ft, i) && es[0] == OpenEdit(ft, i)
    ensures OpenNow(ft, done + [es[0]], es[1..], open + [i])
  {
    CloseAhead(ft, done, es, i);
    forall a | 0 <= a < |open| ensures ft.entities[i].End() < ft.entities[open[a]].End() {
      var j := open[a];
      AcrossTheCut(done, es, OpenEdit(ft, j), es[0]);
      assert CloseEdit(ft, j) != es[0];
      HeadFirst(done, es, CloseEdit(ft, j));
      assert i != j;
      assert if i < j then TwoNested(ft.entities[i], ft.entities[j]) else TwoNested(ft.entities[j], ft.entities[i]);
    }
    OpenStepMembers(ft, done, es, open, i);
  }

  lemma {:induction false} CloseAhead(ft: FormattedText, done: seq<Edit<Token>>, es: seq<Edit<Token>>, i: nat)
    requires Cut(ft, done, es) && es != [] && i < |ft.entities| && Tagged(ft, i) && es[0] == OpenEdit(ft, i)
    ensures CloseEdit(ft, i) in es[1..]
  {
    var close := CloseEdit(ft, i);
    assert es == [es[0]] + es[1..];
    assert close in done + es && close != es[0];
    if close in done { AcrossTheCut(done, es, close, es[0]); }
  }

  lemma {:induction false} OpenStepMembers(ft: FormattedText, done: seq<Edit<Token>>, es: seq<Edit<Token>>,
        open: seq<nat>, i: nat)
    requires OpenNow(ft, done, es, open) && es != [] && i < |ft.entities| && es[0] == OpenEdit(ft, i)
    ensures forall a :: 0 <= a < |open| ==> OpenEdit(ft, open[a]) in done + [es[0]] && CloseEdit(ft, open[a]) in es[1..]
    ensures forall k: nat :: (k < |ft.entities| && Tagged(ft, k) && OpenEdit(ft, k) in done + [es[0]]
                              && CloseEdit(ft, k) in es[1..]) ==>
              k in open + [i]
  {
    assert es == [es[0]] + es[1..];
    forall k: nat | k < |ft.entities| ensures CloseEdit(ft, k) != es[0] && (OpenEdit(ft, k) == es[0] ==> k == i) {
      assert CloseEdit(ft, k).text[0] == Tag(k, false) && OpenEdit(ft, k).text[0] == Tag(k, true)
          && es[0].text[0] == Tag(i, true);
    }
  }

  lemma {:induction false} CloseStep(ft: FormattedText, done: seq<Edit<Token>>, es: seq<Edit<Token>>, open: seq<nat>,
        i: nat)
    requires Cut(ft, done, es) && OpenNow(ft, done, es, open) && es != []
    requires i < |ft.entities| && Tagged(ft, i) && es[0] == CloseEdit(ft, i)
    ensures open != [] && open[|open| - 1] == i
    ensures OpenNow(ft, done + [es[0]], es[1..], open[..|open| - 1])
  {
    assert es == [es[0]] + es[1..];
    assert OpenEdit(ft, i) in done by {
      var o := OpenEdit(ft, i);
      assert o in done + es;
      assert o.text[0] != es[0].text[0];
      if o in es { HeadFirst(done, es, o); }
    }
    assert i in open;
    var top := open[|open| - 1];
    if top != i {
      var a :| 0 <= a < |open| && open[a] == i;
      assert ft.entities[top].End() < ft.entities[i].End();
      assert CloseEdit(ft, top).text[0] != es[0].text[0];
      HeadFirst(done, es, CloseEdit(ft, top));
    }
    CloseStepMembers(ft, done, es, open, i);
  }

  lemma {:induction false} HeadOnce(done: seq<Edit<Token>>, es: seq<Edit<Token>>)
    requires InSequence(done + es) && es != []
    ensures es[0] !in es[1..]
  {
    forall m | 0 <= m < |es[1..]| ensures es[1..][m] != es[0] {
      assert Precedes((done + es)[|done|], (done + es)[|done| + 1 + m]);
    }
  }

  lemma {:induction false} CloseStepMembers(ft: FormattedText, done: seq<Edit<Token>>, es: seq<Edit<Token>>,
        open: seq<nat>, i: nat)
    requires OpenNow(ft, done, es, open) && InSequence(done + es)
    requires es != [] && i < |ft.entities| && es[0] == CloseEdit(ft, i)
    requires open != [] && open[|open| - 1] == i
    ensures OpenNow(ft, done + [es[0]], es[1..], open[..|open| - 1])
  {
    var rest := open[..|open| - 1];
    HeadOnce(done, es);
    assert es == [es[0]] + es[1..] && open == rest + [i];
    forall k: nat | k < |ft.entities| ensures OpenEdit(ft, k) != es[0] && (CloseEdit(ft, k) == es[0] ==> k == i) {
      assert CloseEdit(ft, k).text[0] == Tag(k, false) && OpenEdit(ft, k).text[0] == Tag(k, true)
          && es[0].text[0] == Tag(i, false);
    }
    forall a | 0 <= a < |rest| ensures rest[a] != i {
      assert ft.entities[open[|open| - 1]].End() < ft.entities[open[a]].End();
    }
  }

  /** From any cut on, the tokens close what is open and nothing else. */
  lemma {:induction false} BalancedFrom(ft: FormattedText, done: seq<Edit<Token>>, es: seq<Edit<Token>>,
        open: seq<nat>, lo: int)
    requires 0 <= lo && Ordered(es, lo, |ft.plainText|)
    requires Cut(ft, done, es) && OpenNow(ft, done, es, open)
    ensures Balanced(Substitute(Lift(ft.plainText), es, lo, |ft.plainText|), open)
    decreases |es|
  {
    var s, n := ft.plainText, |ft.plainText|;
    OrderedBounds(es, lo, n);
    assert open != [] ==> CloseEdit(ft, open[0]) in es;
    if es == [] {
      assert Lift(s)[lo..n] == Lift(s[lo..n]) + [];
      BalancedPlain(s[lo..n], [], open);
    } else {
      var e := es[0];
      OrderedBounds(es[1..], e.End(), n);
      CutNext(ft, done, es);
      var rest := Substitute(Lift(s), es[1..], e.End(), n);
      if AllPlain(e.text) {
        var p :| e.text == Lift(p);
        PlainStep(ft, done, es, open);
        BalancedFrom(ft, done + [e], es[1..], open, e.End());
        BalancedPlain(p, rest, open);
      } else {
        var i: nat :| i < |ft.entities| && Tagged(ft, i) && (e == OpenEdit(ft, i) || e == CloseEdit(ft, i));
        if e == OpenEdit(ft, i) {
          OpenStep(ft, done, es, open, i);
          BalancedFrom(ft, done + [e], es[1..], open + [i], e.End());
        } else {
          CloseStep(ft, done, es, open, i);
          BalancedFrom(ft, done + [e], es[1..], open[..|open| - 1], e.End());
        }
        BalancedTag(e.text, rest, open);
      }
      BalancedAfter(s, lo, e.offset, e.text, rest, open);
    }
  }

  lemma {:induction false} BalancedTag(text: seq<Token>, rest: seq<Token>, open: seq<nat>)
    requires |text| == 1 && text[0].Tag?
    requires text[0].opening ==> Balanced(rest, open + [text[0].entity])
    requires !text[0].opening ==> open != [] && open[|open| - 1] == text[0].entity && Balanced(rest, open[..|open| - 1])
    ensures Balanced(text + rest, open)
  {
    assert (text + rest)[0] == text[0] && (text + rest)[1..] == rest;
  }

  lemma {:induction false} BalancedAfter(s: string, lo: int, hi: int, text: seq<Token>, rest: seq<Token>,
        open: seq<nat>)
    requires 0 <= lo <= hi <= |s| && Balanced(text + rest, open)
    ensures Balanced(Lift(s)[lo..hi] + text + rest, open)
  {
    assert Lift(s)[lo..hi] + text + rest == Lift(s[lo..hi]) + (text + rest);
    BalancedPlain(s[lo..hi], text + rest, open);
  }

  lemma {:induction false} WholeCut(ft: FormattedText, escape: bool)
    requires WellNested(ft) && (escape ==> SplitsNoBreak(ft))
    ensures Cut(ft, [], InTextOrder(ft, escape))
  {
    var asc, n := InTextOrder(ft, escape), |ft.entities|;
    TextOrderFacts(ft, escape);
    assert [] + asc == asc;
    forall k | 0 <= k < |asc| ensures IsTagEdit(ft, n, asc[k]) || AllPlain(asc[k].text) {
      assert asc[k] in asc;
      TagOrEscape(ft, escape, asc[k]);
    }
    forall i: nat | i < n && Tagged(ft, i) ensures OpenEdit(ft, i) in asc && CloseEdit(ft, i) in asc {
      assert IsTagEdit(ft, n, OpenEdit(ft, i)) && IsTagEdit(ft, n, CloseEdit(ft, i));
      TagTokenMembers(ft, n, OpenEdit(ft, i));
      TagTokenMembers(ft, n, CloseEdit(ft, i));
    }
  }

  lemma {:induction false} TagOrEscape(ft: FormattedText, escape: bool, e: Edit<Token>)
    requires e in TokenEdits(ft, escape)
    ensures IsTagEdit(ft, |ft.entities|, e) || AllPlain(e.text)
  {
    var escapes := if escape then EscapeEdits(ft.plainText, 0) else [];
    if e in TagTokens(ft, |ft.entities|) {
      TagTokenMembers(ft, |ft.entities|, e);
    } else {
      assert e in LiftEdits(escapes);
      var j :| 0 <= j < |escapes| && LiftEdits(escapes)[j] == e;
      assert e.text == Lift(escapes[j].text);
    }
  }

  /** The tags of nested entities are balanced. */
  lemma {:induction false} TagsBalanced(ft: FormattedText, escape: bool)
    requires WellNested(ft) && (escape ==> SplitsNoBreak(ft))
    ensures Balanced(Rendered(ft, escape), [])
  {
    WholeCut(ft, escape);
    TextOrderFacts(ft, escape);
    BalancedFrom(ft, [], InTextOrder(ft, escape), [], 0);
  }

  // What a pair of tags encloses

  ghost predicate StrictlyInside(x: Edit<Token>, open: Edit<Token>, close: Edit<Token>)
  {
    Precedes(open, x) && Precedes(x, close)
  }

  /** Cutting a list at two of its members that follow each other. */
  lemma {:induction false} CutAtTwo(es: seq<Edit<Token>>, x: Edit<Token>, y: Edit<Token>)
    returns (a: seq<Edit<Token>>, b: seq<Edit<Token>>, c: seq<Edit<Token>>)
    requires InSequence(es) && x in es && y in es && Precedes(x, y) && x != y
    ensures es == a + [x] + b + [y] + c
    ensures forall e :: e in b <==> e in es && StrictlyInside(e, x, y)
  {
    assert forall k, m :: 0 <= k < m < |es| ==> !Precedes(es[m], es[k]);
    var i :| 0 <= i < |es| && es[i] == x;
    var j :| 0 <= j < |es| && es[j] == y;
    assert i < j;
    a, b, c := es[..i], es[i + 1..j], es[j + 1..];
    BetweenMembers(es, i, j);
  }

  lemma {:induction false} BetweenMembers(es: seq<Edit<Token>>, i: nat, j: nat)
    requires InSequence(es) && i < j < |es|
    ensures forall e :: e in es[i + 1..j] <==> e in es && StrictlyInside(e, es[i], es[j])
  {
    forall e ensures e in es[i + 1..j] <==> e in es && StrictlyInside(e, es[i], es[j]) {
      if e in es[i + 1..j] {
        var k :| i + 1 <= k < j && es[k] == e;
        assert Precedes(es[i], es[k]) && Precedes(es[k], es[j]);
      }
      if e in es && StrictlyInside(e, es[i], es[j]) {
        var k := IndexInSequence(es, e, i, j);
        assert es[i + 1..j][k - (i + 1)] == e;
      }
    }
  }

  lemma {:induction false} IndexInSequence(es: seq<Edit<Token>>, e: Edit<Token>, i: nat, j: nat) returns (k: nat)
    requires InSequence(es) && i < j < |es| && e in es && StrictlyInside(e, es[i], es[j])
    ensures i < k < j && es[k] == e
  {
    assert forall a, b :: 0 <= a < b < |es| ==> !Precedes(es[b], es[a]);
    k :| 0 <= k < |es| && es[k] == e;
  }

  /** Each pair of tags stands around exactly the rendering of its own interval: the text of the interval with
      the edits that lie strictly inside it carried out. */
  lemma {:induction false} PairEncloses(ft: FormattedText, escape: bool, i: nat)
    returns (before: seq<Token>, inner: seq<Edit<Token>>, after: seq<Token>)
    requires WellNested(ft) && (escape ==> SplitsNoBreak(ft))
    requires i < |ft.entities| && Tagged(ft, i)
    ensures Ordered(inner, ft.entities[i].offset, ft.entities[i].End())
    ensures forall e :: e in inner <==>
              e in TokenEdits(ft, escape) && StrictlyInside(e, OpenEdit(ft, i), CloseEdit(ft, i))
    ensures Rendered(ft, escape)
         == before + [Tag(i, true)]
            + Substitute(Lift(ft.plainText), inner, ft.entities[i].offset, ft.entities[i].End())
            + [Tag(i, false)] + after
  {
    var asc := InTextOrder(ft, escape);
    var open, close := OpenEdit(ft, i), CloseEdit(ft, i);
    TextOrderFacts(ft, escape);
    WholeCut(ft, escape);
    assert [] + asc == asc;
    var a, b, c := CutAtTwo(asc, open, close);
    inner := b;
    before, after := SubstituteAroundPair(Lift(ft.plainText), a, open, b, close, c);
  }

  lemma {:induction false} SubstituteAroundPair(t: seq<Token>, a: seq<Edit<Token>>, open: Edit<Token>,
        b: seq<Edit<Token>>, close: Edit<Token>, c: seq<Edit<Token>>)
    returns (before: seq<Token>, after: seq<Token>)
    requires Ordered(a + [open] + b + [close] + c, 0, |t|) && open.length == 0
    ensures Ordered(b, open.offset, close.offset) && 0 <= open.offset && close.offset <= |t|
    ensures Substitute(t, a + [open] + b + [close] + c, 0, |t|)
         == before + open.text + Substitute(t, b, open.offset, close.offset) + close.text + after
  {
    assert a + [open] + b + [close] + c == a + [open] + (b + [close] + c);
    SubstituteSplit(t, a, open, b + [close] + c, 0, |t|);
    SubstituteSplit(t, b, close, c, open.End(), |t|);
    before := Substitute(t, a, 0, open.offset);
    after := Substitute(t, c, close.End(), |t|);
  }

  // Dropping the tags

  /** The edits that are not tags, as edits of the string. */
  ghost function TextEdits(es: seq<Edit<Token>>): seq<Edit<char>>
  {
    if es == [] then []
    else
      (if es[0].text != [] && es[0].text[0].Tag? then [] else [Edit(es[0].offset, es[0].length, DropTags(es[0].text))])
      + TextEdits(es[1..])
  }

  ghost predicate TagsAndText(es: seq<Edit<Token>>)
  {
    forall k :: 0 <= k < |es| ==>
      AllPlain(es[k].text) || (es[k].length == 0 && |es[k].text| == 1 && es[k].text[0].Tag?)
  }

  lemma {:induction false} DropSubstitute(s: string, es: seq<Edit<Token>>, lo: int, hi: int)
    requires 0 <= lo && hi <= |s| && Ordered(es, lo, hi) && TagsAndText(es)
    ensures Ordered(TextEdits(es), lo, hi)
    ensures DropTags(Substitute(Lift(s), es, lo, hi)) == Substitute(s, TextEdits(es), lo, hi)
  {
    OrderedBounds(es, lo, hi);
    if es == [] {
      assert Lift(s)[lo..hi] == Lift(s[lo..hi]);
      DropLift(s[lo..hi]);
    } else {
      DropSubstitute(s, es[1..], es[0].End(), hi);
      if es[0].text != [] && es[0].text[0].Tag? {
        DropTagStep(s, es, lo, hi);
      } else {
        DropTextStep(s, es, lo, hi);
      }
    }
  }

  lemma {:induction false} DropTagStep(s: string, es: seq<Edit<Token>>, lo: int, hi: int)
    requires 0 <= lo && hi <= |s| && Ordered(es, lo, hi) && es != []
    requires es[0].length == 0 && |es[0].text| == 1 && es[0].text[0].Tag?
    requires Ordered(TextEdits(es[1..]), es[0].End(), hi)
    requires DropTags(Substitute(Lift(s), es[1..], es[0].End(), hi))
             == Substitute(s, TextEdits(es[1..]), es[0].End(), hi)
    ensures Ordered(TextEdits(es), lo, hi)
    ensures DropTags(Substitute(Lift(s), es, lo, hi)) == Substitute(s, TextEdits(es), lo, hi)
  {
    var e := es[0];
    assert e.text[1..] == [] && DropTags(e.text) == "";
    var texts := TextEdits(es[1..]);
    assert TextEdits(es) == [] + texts == texts;
    SubstituteEarlier(s, texts, lo, e.End(), hi);
    DropHead(s, es, lo, hi);
    assert s[lo..e.offset] + "" == s[lo..e.offset];
  }

  /** The tokens before the first edit, of the edit, and after it. */
  lemma {:induction false} DropHead(s: string, es: seq<Edit<Token>>, lo: int, hi: int)
    requires 0 <= lo && hi <= |s| && Ordered(es, lo, hi) && es != []
    ensures lo <= es[0].offset <= es[0].End() <= hi
    ensures DropTags(Substitute(Lift(s), es, lo, hi))
         == s[lo..es[0].offset] + DropTags(es[0].text) + DropTags(Substitute(Lift(s), es[1..], es[0].End(), hi))
  {
    OrderedBounds(es, lo, hi);
    OrderedBounds(es[1..], es[0].End(), hi);
    DropThree(s, lo, es[0].offset, es[0].text, Substitute(Lift(s), es[1..], es[0].End(), hi));
  }

  lemma {:induction false} DropTextStep(s: string, es: seq<Edit<Token>>, lo: int, hi: int)
    requires 0 <= lo && hi <= |s| && Ordered(es, lo, hi) && es != []
    requires es[0].text == [] || es[0].text[0].Plain?
    requires Ordered(TextEdits(es[1..]), es[0].End(), hi)
    requires DropTags(Substitute(Lift(s), es[1..], es[0].End(), hi))
             == Substitute(s, TextEdits(es[1..]), es[0].End(), hi)
    ensures Ordered(TextEdits(es), lo, hi)
    ensures DropTags(Substitute(Lift(s), es, lo, hi)) == Substitute(s, TextEdits(es), lo, hi)
  {
    var e := es[0];
    DropHead(s, es, lo, hi);
    SubstituteCons(s, Edit(e.offset, e.length, DropTags(e.text)), TextEdits(es[1..]), lo, hi);
  }

  lemma {:induction false} DropThree(s: string, lo: int, hi: int, text: seq<Token>, rest: seq<Token>)
    requires 0 <= lo <= hi <= |s|
    ensures DropTags(Lift(s)[lo..hi] + text + rest) == s[lo..hi] + DropTags(text) + DropTags(rest)
  {
    assert Lift(s)[lo..hi] == Lift(s[lo..hi]);
    DropLift(s[lo..hi]);
    DropConcat(Lift(s[lo..hi]) + text, rest);
    DropConcat(Lift(s[lo..hi]), text);
  }

  lemma {:induction false} TextEditMembers(es: seq<Edit<Token>>, x: Edit<char>)
    ensures x in TextEdits(es) <==>
              exists k :: 0 <= k < |es| && !(es[k].text != [] && es[k].text[0].Tag?)
                          && x == Edit(es[k].offset, es[k].length, DropTags(es[k].text))
  {
    if es == [] {
    } else {
      TextEditMembers(es[1..], x);
      if x in TextEdits(es[1..]) {
        var k :| 0 <= k < |es[1..]| && !(es[1..][k].text != [] && es[1..][k].text[0].Tag?)
                 && x == Edit(es[1..][k].offset, es[1..][k].length, DropTags(es[1..][k].text));
        assert es[k + 1] == es[1..][k];
      }
      if k :| 0 < k < |es| && !(es[k].text != [] && es[k].text[0].Tag?)
              && x == Edit(es[k].offset, es[k].length, DropTags(es[k].text)) {
        assert es[1..][k - 1] == es[k];
      }
    }
  }

  lemma {:induction false} TextEditsInSequence(es: seq<Edit<Token>>)
    requires InSequence(es)
    ensures InSequence(TextEdits(es))
  {
    if es == [] {
    } else {
      TextEditsInSequence(es[1..]);
      var rest := TextEdits(es[1..]);
      forall k | 0 <= k < |rest|
        ensures Precedes(Edit(es[0].offset, es[0].length, DropTags(es[0].text)), rest[k])
      {
        TextEditMembers(es[1..], rest[k]);
        assert rest[k] in rest;
        var m :| 0 <= m < |es[1..]| && rest[k] == Edit(es[1..][m].offset, es[1..][m].length, DropTags(es[1..][m].text));
        assert Precedes(es[0], es[m + 1]);
      }
    }
  }

  /** Of all edits, the ones that are not tags are exactly the escapes, from left to right. */
  lemma {:induction false} TextEditsAreEscapes(ft: FormattedText, escape: bool)
    requires WellNested(ft) && (escape ==> SplitsNoBreak(ft))
    ensures TextEdits(InTextOrder(ft, escape)) == if escape then ScanEdits(ft.plainText, 0) else []
  {
    var asc := InTextOrder(ft, escape);
    TextOrderFacts(ft, escape);
    TextEditsInSequence(asc);
    ScanFacts(ft.plainText, 0);
    TextEditsMembers(ft, escape);
    InSequenceUnique(TextEdits(asc), if escape then ScanEdits(ft.plainText, 0) else []);
  }

  lemma {:induction false} TextEditsMembers(ft: FormattedText, escape: bool)
    requires WellNested(ft) && (escape ==> SplitsNoBreak(ft))
    ensures var escapes := if escape then ScanEdits(ft.plainText, 0) else [];
            forall x :: x in TextEdits(InTextOrder(ft, escape)) <==> x in escapes
  {
    var scan := if escape then ScanEdits(ft.plainText, 0) else [];
    var texts := TextEdits(InTextOrder(ft, escape));
    forall x ensures x in texts <==> x in scan {
      OneTextEdit(ft, escape, x);
    }
  }

  lemma {:induction false} OneTextEdit(ft: FormattedText, escape: bool, x: Edit<char>)
    requires WellNested(ft) && (escape ==> SplitsNoBreak(ft))
    ensures x in TextEdits(InTextOrder(ft, escape)) <==> escape && x in ScanEdits(ft.plainText, 0)
  {
    EscapesPermuted(ft.plainText, 0);
    assert x in EscapeEdits(ft.plainText, 0) <==> x in multiset(EscapeEdits(ft.plainText, 0));
    assert x in ScanEdits(ft.plainText, 0) <==> x in multiset(ScanEdits(ft.plainText, 0));
    TextEditIsEscape(ft, escape, x);
    EscapeIsTextEdit(ft, escape, x);
  }

  lemma {:induction false} TextEditIsEscape(ft: FormattedText, escape: bool, x: Edit<char>)
    requires WellNested(ft) && (escape ==> SplitsNoBreak(ft))
    ensures x in TextEdits(InTextOrder(ft, escape)) ==> escape && x in EscapeEdits(ft.plainText, 0)
  {
    var asc := InTextOrder(ft, escape);
    TextEditMembers(asc, x);
    if x in TextEdits(asc) {
      var k :| 0 <= k < |asc| && !(asc[k].text != [] && asc[k].text[0].Tag?)
               && x == Edit(asc[k].offset, asc[k].length, DropTags(asc[k].text));
      assert asc[k] in asc;
      OtherEditIsEscape(ft, escape, asc[k]);
    }
  }

  lemma {:induction false} OtherEditIsEscape(ft: FormattedText, escape: bool, e: Edit<Token>)
    requires WellNested(ft) && (escape ==> SplitsNoBreak(ft))
    requires e in InTextOrder(ft, escape) && !(e.text != [] && e.text[0].Tag?)
    ensures escape && Edit(e.offset, e.length, DropTags(e.text)) in EscapeEdits(ft.plainText, 0)
  {
    var escapes := EscapeEdits(ft.plainText, 0);
    TextOrderFacts(ft, escape);
    TagTokenMembers(ft, |ft.entities|, e);
    assert e in TokenEdits(ft, escape) && escape && e in LiftEdits(escapes);
    var j :| 0 <= j < |escapes| && LiftEdits(escapes)[j] == e;
    DropLift(escapes[j].text);
    assert Edit(e.offset, e.length, DropTags(e.text)) == escapes[j];
  }

  lemma {:induction false} EscapeIsTextEdit(ft: FormattedText, escape: bool, x: Edit<char>)
    requires WellNested(ft) && (escape ==> SplitsNoBreak(ft))
    ensures escape && x in EscapeEdits(ft.plainText, 0) ==> x in TextEdits(InTextOrder(ft, escape))
  {
    var asc := InTextOrder(ft, escape);
    var escapes := EscapeEdits(ft.plainText, 0);
    if escape && x in escapes {
      TextOrderFacts(ft, escape);
      TextEditMembers(asc, x);
      var j :| 0 <= j < |escapes| && escapes[j] == x;
      var e := LiftEdits(escapes)[j];
      assert e in LiftEdits(escapes) && e in asc;
      var k :| 0 <= k < |asc| && asc[k] == e;
      DropLift(x.text);
    }
  }

  predicate NoBreakChars(p: string)
  {
    forall k :: 0 <= k < |p| ==> p[k] != '\r' && p[k] != '\n'
  }

  lemma {:induction false} BreaksPrefix(p: string, x: string)
    requires NoBreakChars(p)
    ensures BreaksReplaced(p + x) == p + BreaksReplaced(x)
  {
    if p == "" {
      assert p + x == x;
    } else {
      assert (p + x)[1..] == p[1..] + x;
      BreaksPrefix(p[1..], x);
    }
  }

  lemma {:induction false} EscapedStart(s: string, from: nat)
    requires from < |s|
    ensures HtmlEscaped(s[from..]) == EscapeOf(s[from]) + HtmlEscaped(s[from + 1..])
  {
    assert s[from..][1..] == s[from + 1..];
  }

  /** One pass over the plain text does what escaping and then replacing line breaks does. */
  lemma {:induction false} ScanEscapes(s: string, from: nat)
    requires from <= |s|
    ensures Ordered(ScanEdits(s, from), from, |s|)
    ensures Substitute(s, ScanEdits(s, from), from, |s|) == GetPlainEscaped(s[from..])
    decreases |s| - from
  {
    if from == |s| {
      assert s[from..] == "";
    } else if CrlfAt(s, from) {
      ScanEscapes(s, from + 2);
      BreakPair(s, from);
      FirstEdit(s, Edit(from, 2, "<br>"), ScanEdits(s, from + 2), from);
    } else {
      ScanEscapes(s, from + 1);
      if s[from] == '\n' {
        LoneBreak(s, from);
        FirstEdit(s, Edit(from, 1, "<br>"), ScanEdits(s, from + 1), from);
      } else if Reserved(s[from]) {
        ReservedChar(s, from);
        FirstEdit(s, Edit(from, 1, EscapeOf(s[from])), ScanEdits(s, from + 1), from);
      } else {
        LoneChar(s, from);
        CharBefore(s, ScanEdits(s, from + 1), from);
        assert ScanEdits(s, from) == ScanEdits(s, from + 1);
      }
    }
  }

  lemma {:induction false} CharBefore(s: string, rest: seq<Edit<char>>, from: nat)
    requires from < |s| && Ordered(rest, from + 1, |s|)
    ensures Ordered(rest, from, |s|) && Substitute(s, rest, from, |s|) == [s[from]] + Substitute(s, rest, from + 1, |s|)
  {
    SubstituteEarlier(s, rest, from, from + 1, |s|);
    assert s[from..from + 1] == [s[from]];
  }

  lemma {:induction false} FirstEdit(s: string, e: Edit<char>, rest: seq<Edit<char>>, from: nat)
    requires e.offset == from && 0 <= e.length && Ordered(rest, e.End(), |s|)
    ensures Ordered([e] + rest, from, |s|)
    ensures e.End() <= |s| && Substitute(s, [e] + rest, from, |s|) == e.text + Substitute(s, rest, e.End(), |s|)
  {
    OrderedBounds(rest, e.End(), |s|);
    assert ([e] + rest)[1..] == rest;
    assert s[from..from] == "";
  }

  lemma {:induction false} BreakPair(s: string, from: nat)
    requires CrlfAt(s, from)
    ensures GetPlainEscaped(s[from..]) == "<br>" + GetPlainEscaped(s[from + 2..])
  {
    EscapedStart(s, from);
    EscapedStart(s, from + 1);
    var x := HtmlEscaped(s[from + 2..]);
    assert HtmlEscaped(s[from..]) == "\r" + ("\n" + x);
    assert ("\r" + ("\n" + x))[2..] == x;
  }

  lemma {:induction false} LoneBreak(s: string, from: nat)
    requires from < |s| && s[from] == '\n'
    ensures GetPlainEscaped(s[from..]) == "<br>" + GetPlainEscaped(s[from + 1..])
  {
    EscapedStart(s, from);
    var x := HtmlEscaped(s[from + 1..]);
    assert ("\n" + x)[1..] == x;
  }

  lemma {:induction false} ReservedChar(s: string, from: nat)
    requires from < |s| && Reserved(s[from])
    ensures GetPlainEscaped(s[from..]) == EscapeOf(s[from]) + GetPlainEscaped(s[from + 1..])
  {
    EscapedStart(s, from);
    BreaksPrefix(EscapeOf(s[from]), HtmlEscaped(s[from + 1..]));
  }

  lemma {:induction false} LoneChar(s: string, from: nat)
    requires from < |s| && !CrlfAt(s, from) && s[from] != '\n' && !Reserved(s[from])
    ensures GetPlainEscaped(s[from..]) == [s[from]] + GetPlainEscaped(s[from + 1..])
  {
    EscapedStart(s, from);
    var x := HtmlEscaped(s[from + 1..]);
    assert HtmlEscaped(s[from..]) == [s[from]] + x;
    assert ([s[from]] + x)[1..] == x;
    if from + 1 < |s| {
      EscapedStart(s, from + 1);
    } else {
      assert s[from + 1..] == "";
    }
  }

  /** Without its tags the parsed text is the plain text, escaped if escaping was asked for. */
  lemma {:induction false} DroppingTagsLeavesText(ft: FormattedText, escape: bool)
    requires WellNested(ft) && (escape ==> SplitsNoBreak(ft))
    ensures DropTags(Rendered(ft, escape)) == if escape then GetPlainEscaped(ft.plainText) else ft.plainText
  {
    var asc, s := InTextOrder(ft, escape), ft.plainText;
    TextOrderFacts(ft, escape);
    WholeCut(ft, escape);
    forall k | 0 <= k < |asc|
      ensures AllPlain(asc[k].text) || (asc[k].length == 0 && |asc[k].text| == 1 && asc[k].text[0].Tag?)
    {
      assert IsTagEdit(ft, |ft.entities|, asc[k]) || AllPlain(asc[k].text);
    }
    DropSubstitute(s, asc, 0, |s|);
    TextEditsAreEscapes(ft, escape);
    if escape {
      ScanEscapes(s, 0);
      assert s[0..] == s;
    } else {
      assert s[0..|s|] == s;
    }
  }
}
