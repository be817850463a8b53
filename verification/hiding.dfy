/** Entities that are shown by something else than their text: hidden spoilers and custom emojis. */
module Hiding {
  import opened Lists
  import opened Substitution
  import opened FormattedTexts
  import opened MarkupTokens
  import opened Nesting
  import Decimal
  import TagOrder

  // What is shown

  ghost predicate Replaced(ft: FormattedText, i: int)
  {
    0 <= i < |ft.entities| && GetReplacement(ft, ft.entities[i]) != ""
  }

  /** A hidden spoiler is as many blocks as it has characters, an emoji whose picture is known is that picture in the
      size asked for, and nothing else is replaced. */
  lemma {:induction false} ReplacementMeans(ft: FormattedText, e: Entity)
    requires e.length >= 0
    ensures e.kind.Spoiler? && !ft.isFull ==>
              |GetReplacement(ft, e)| == e.length && forall c :: c in GetReplacement(ft, e) ==> c == '\U{2592}'
    ensures e.kind.CustomEmoji? && e.typeData.Number? ==>
              var id, size := e.typeData.number, Decimal.Number(ft.customEmojiSize);
              if ft.customEmojiSize != 0 && id in ft.customEmojiPaths && ft.customEmojiPaths[id] != "" then
                GetReplacement(ft, e)
                == "<img align=\"middle\" width=\"" + size + "\" height=\"" + size + "\" src=\""
                   + ft.customEmojiPaths[id] + "\"/>"
              else GetReplacement(ft, e) == ""
    ensures !(e.kind.Spoiler? && !ft.isFull) && !e.kind.CustomEmoji? ==> GetReplacement(ft, e) == ""
  {
  }

  ghost predicate ReplacedFrom(ft: FormattedText, i: int, from: int)
  {
    Replaced(ft, i) && ft.entities[i].offset == from && ft.entities[i].length > 0
  }

  /** The entity that is replaced from here on, or -1. */
  ghost function ReplacedAt(ft: FormattedText, from: int): (i: int)
    ensures if i == -1 then !(exists j :: ReplacedFrom(ft, j, from)) else ReplacedFrom(ft, i, from)
  {
    if exists i :: ReplacedFrom(ft, i, from) then var i :| ReplacedFrom(ft, i, from); i else -1
  }

  /** The text from `from` on with each replaced interval exchanged for its replacement, and everything else as it is,
      or escaped. */
  ghost function Shown(ft: FormattedText, escape: bool, from: nat): string
    decreases |ft.plainText| - from
  {
    var s := ft.plainText;
    if from >= |s| then ""
    else if ReplacedAt(ft, from) >= 0 then
      var e := ft.entities[ReplacedAt(ft, from)];
      GetReplacement(ft, e) + Shown(ft, escape, from + e.length)
    else if !escape then [s[from]] + Shown(ft, escape, from + 1)
    else if CrlfAt(s, from) then "<br>" + Shown(ft, escape, from + 2)
    else if s[from] == '\n' then "<br>" + Shown(ft, escape, from + 1)
    else EscapeOf(s[from]) + Shown(ft, escape, from + 1)
  }

  // Which entities may be replaced

  ghost predicate Active(ft: FormattedText, i: int)
  {
    0 <= i < |ft.entities| && (Replaced(ft, i) || Tagged(ft, i))
  }

  /** No boundary of another entity is inside a replaced one, and two replaced ones do not overlap. */
  ghost predicate LeavesAlone(ft: FormattedText, i: int, j: int)
    requires 0 <= i < |ft.entities| && 0 <= j < |ft.entities|
  {
    var a, b := ft.entities[i], ft.entities[j];
    && !(a.offset < b.offset < a.End()) && !(a.offset < b.End() < a.End())
    && (Replaced(ft, j) ==> a.End() <= b.offset || b.End() <= a.offset)
  }

  /** Nothing in the interval is escaped. */
  ghost predicate NothingToEscape(s: string, from: int, to: int)
  {
    forall k :: from <= k < to && 0 <= k < |s| ==> !Reserved(s[k]) && s[k] != '\n' && !CrlfAt(s, k)
  }

  ghost predicate Exchangeable(ft: FormattedText, escape: bool)
  {
    && LengthsOk(ft)
    && (forall i :: Active(ft, i) ==> 0 <= ft.entities[i].offset && ft.entities[i].End() <= |ft.plainText|)
    && (forall i :: Replaced(ft, i) ==> ft.entities[i].length > 0)
    && (forall i, j :: Replaced(ft, i) && Active(ft, j) && i != j ==> LeavesAlone(ft, i, j))
    && (escape ==> SplitsNoBreak(ft))
    && (escape ==> forall i :: Replaced(ft, i) ==>
          NothingToEscape(ft.plainText, ft.entities[i].offset, ft.entities[i].End()))
  }

  // The edits on tokens

  function ReplacementEdit(ft: FormattedText, i: nat): Edit<char>
    requires i < |ft.entities|
  {
    Edit(ft.entities[i].offset, ft.entities[i].length, GetReplacement(ft, ft.entities[i]))
  }

  ghost function AllTokensOf(ft: FormattedText, i: nat): seq<Edit<Token>>
    requires i < |ft.entities|
  {
    (if Replaced(ft, i) then [LiftEdit(ReplacementEdit(ft, i))] else []) + TokensOf(ft, i)
  }

  ghost function EntityTokens(ft: FormattedText): seq<seq<Edit<Token>>>
  {
    seq(|ft.entities|, i requires 0 <= i < |ft.entities| => AllTokensOf(ft, i))
  }

  ghost function AllTokens(ft: FormattedText, escape: bool): seq<Edit<Token>>
  {
    Chained(EntityTokens(ft), |ft.entities|) + (if escape then LiftEdits(EscapeEdits(ft.plainText, 0)) else [])
  }

  lemma {:induction false} SpellAllTokensOf(ft: FormattedText, i: nat)
    requires i < |ft.entities| && ft.entities[i].length >= 0
    ensures SpellEdits(TagTexts(ft), AllTokensOf(ft, i)) == EntityEdits(ft, i)
  {
    var tags, e := TagTexts(ft), ReplacementEdit(ft, i);
    SpellOne(tags, Tag(i, true));
    SpellOne(tags, Tag(i, false));
    SpellLift(tags, e.text);
    var own := if Replaced(ft, i) then [LiftEdit(e)] else [];
    SpellEditsConcat(tags, own, TokensOf(ft, i));
    assert SpellEdits(tags, own) == if Replaced(ft, i) then [e] else [];
    assert SpellEdits(tags, TokensOf(ft, i))
        == if Tagged(ft, i) then [SpellEdit(tags, OpenEdit(ft, i)), SpellEdit(tags, CloseEdit(ft, i))] else [];
  }

  /** The tokens' edits, spelled out, are the edits that are parsed with. */
  lemma {:induction false} SpellAllTokens(ft: FormattedText, escape: bool)
    requires LengthsOk(ft)
    ensures SpellEdits(TagTexts(ft), AllTokens(ft, escape)) == AllEdits(ft, escape)
  {
    var n, tags := |ft.entities|, TagTexts(ft);
    var edits := seq(n, i requires 0 <= i < n => EntityEdits(ft, i));
    forall i | 0 <= i < n ensures SpellEdits(tags, EntityTokens(ft)[i]) == edits[i] {
      SpellAllTokensOf(ft, i);
    }
    SpellChained(tags, EntityTokens(ft), edits, n);
    TagEditsChained(ft, edits, n);
    SpellLiftedEdits(tags, EscapeEdits(ft.plainText, 0));
    SpellEditsConcat(tags, Chained(EntityTokens(ft), n),
                     if escape then LiftEdits(EscapeEdits(ft.plainText, 0)) else []);
  }

  // Members

  lemma {:induction false} ChainedMembers<T>(lists: seq<seq<T>>, n: nat, x: T)
    requires n <= |lists|
    ensures x in Chained(lists, n) <==> exists i :: 0 <= i < n && x in lists[i]
  {
    if n == 0 {
    } else {
      ChainedMembers(lists, n - 1, x);
    }
  }

  ghost predicate OwnEdit(ft: FormattedText, i: int, e: Edit<Token>)
    requires 0 <= i < |ft.entities|
  {
    || (Replaced(ft, i) && e == LiftEdit(ReplacementEdit(ft, i)))
    || (Tagged(ft, i) && (e == OpenEdit(ft, i) || e == CloseEdit(ft, i)))
  }

  ghost predicate EscapeEdit(ft: FormattedText, e: Edit<Token>)
  {
    exists x :: x in EscapeEdits(ft.plainText, 0) && e == LiftEdit(x)
  }

  lemma {:induction false} LiftedMembers(es: seq<Edit<char>>, e: Edit<Token>)
    ensures e in LiftEdits(es) <==> exists x :: x in es && e == LiftEdit(x)
  {
    if x :| x in es && e == LiftEdit(x) {
      var k :| 0 <= k < |es| && es[k] == x;
      assert LiftEdits(es)[k] == e;
    }
  }

  lemma {:induction false} OwnMembers(ft: FormattedText, i: nat, e: Edit<Token>)
    requires i < |ft.entities|
    ensures e in AllTokensOf(ft, i) <==> OwnEdit(ft, i, e)
  {
  }

  lemma {:induction false} TokenMembers(ft: FormattedText, escape: bool, e: Edit<Token>)
    ensures e in AllTokens(ft, escape)
            <==> (exists i :: 0 <= i < |ft.entities| && OwnEdit(ft, i, e)) || (escape && EscapeEdit(ft, e))
  {
    ChainedMembers(EntityTokens(ft), |ft.entities|, e);
    LiftedMembers(EscapeEdits(ft.plainText, 0), e);
    forall i | 0 <= i < |ft.entities| ensures e in EntityTokens(ft)[i] <==> OwnEdit(ft, i, e) {
      OwnMembers(ft, i, e);
    }
  }

  // They do not overlap

  lemma {:induction false} ChainedPairwise<T>(related: (T, T) -> bool, lists: seq<seq<T>>, n: nat)
    requires n <= |lists| && forall i :: 0 <= i < n ==> PairwiseBy(related, lists[i])
    requires forall i, j, x, y :: 0 <= i < j < n && x in lists[i] && y in lists[j] ==> related(x, y)
    ensures PairwiseBy(related, Chained(lists, n))
  {
    if n == 0 {
    } else {
      ChainedPairwise(related, lists, n - 1);
      var before, own := Chained(lists, n - 1), lists[n - 1];
      forall p, q | 0 <= p < |before| && 0 <= q < |own| ensures related(before[p], own[q]) {
        ChainedMembers(lists, n - 1, before[p]);
        assert before[p] in before && own[q] in own;
      }
      PairwiseConcat(related, before, own);
    }
  }

  lemma {:induction false} OwnClear(ft: FormattedText, escape: bool, i: nat)
    requires Exchangeable(ft, escape) && i < |ft.entities|
    ensures PairwiseBy(Clear, AllTokensOf(ft, i))
  {
    var own := AllTokensOf(ft, i);
    assert Active(ft, i) ==> 0 <= ft.entities[i].length;
    forall p, q | 0 <= p < q < |own| ensures Clear(own[p], own[q]) {}
  }

  lemma {:induction false} OthersClear(ft: FormattedText, escape: bool, i: nat, j: nat, x: Edit<Token>, y: Edit<Token>)
    requires Exchangeable(ft, escape) && i < |ft.entities| && j < |ft.entities| && i != j
    requires OwnEdit(ft, i, x) && OwnEdit(ft, j, y)
    ensures Clear(x, y)
  {
    assert Active(ft, i) && Active(ft, j);
    if Replaced(ft, i) { assert LeavesAlone(ft, i, j); }
    if Replaced(ft, j) { assert LeavesAlone(ft, j, i); }
  }

  /** What an escape stands for. */
  lemma {:induction false} EscapeContent(s: string, from: nat, x: Edit<char>)
    requires x in ScanEdits(s, from)
    ensures from <= x.offset && x.End() <= |s| && x.length > 0
    ensures if x.length == 1 then Reserved(s[x.offset]) || s[x.offset] == '\n'
            else x.length == 2 && CrlfAt(s, x.offset)
    decreases |s| - from
  {
    if from >= |s| {
    } else {
      var step := if CrlfAt(s, from) then 2 else 1;
      if x in ScanEdits(s, from + step) {
        EscapeContent(s, from + step, x);
      } else if CrlfAt(s, from) {
        assert x == Edit(from, 2, "<br>");
      }
    }
  }

  lemma {:induction false} EscapesOutside(ft: FormattedText, i: nat, x: Edit<char>)
    requires i < |ft.entities| && x in EscapeEdits(ft.plainText, 0) && 0 < ft.entities[i].length
    requires NothingToEscape(ft.plainText, ft.entities[i].offset, ft.entities[i].End())
    ensures Clear(LiftEdit(ReplacementEdit(ft, i)), LiftEdit(x))
  {
    EscapesPermuted(ft.plainText, 0);
    PermutedMembers(EscapeEdits(ft.plainText, 0), ScanEdits(ft.plainText, 0));
    EscapeContent(ft.plainText, 0, x);
    NotWithin(ft.plainText, ft.entities[i].offset, ft.entities[i].End(), x);
  }

  lemma {:induction false} NotWithin(s: string, from: int, to: int, x: Edit<char>)
    requires from < to && NothingToEscape(s, from, to) && 0 <= x.offset && x.End() <= |s|
    requires if x.length == 1 then Reserved(s[x.offset]) || s[x.offset] == '\n'
             else x.length == 2 && CrlfAt(s, x.offset)
    ensures x.End() <= from || to <= x.offset
  {
    var k := x.offset;
    assert !(from <= k < to);
    if x.length == 2 {
      assert s[k + 1] == '\n';
      assert !(from <= k + 1 < to);
    }
  }

  lemma {:induction false} EscapeClear(ft: FormattedText, i: nat, e: Edit<Token>, x: Edit<char>)
    requires Exchangeable(ft, true) && i < |ft.entities| && OwnEdit(ft, i, e) && x in EscapeEdits(ft.plainText, 0)
    ensures Clear(e, LiftEdit(x))
  {
    if Replaced(ft, i) && e == LiftEdit(ReplacementEdit(ft, i)) {
      EscapesOutside(ft, i, x);
    } else {
      assert IsTagEdit(ft, |ft.entities|, e);
      var k :| 0 <= k < |EscapeEdits(ft.plainText, 0)| && EscapeEdits(ft.plainText, 0)[k] == x;
      EscapeShape(ft.plainText, k);
      TagOrder.TagClearOfEscape(ft, e, x);
    }
  }

  lemma {:induction false} EntityTokensClear(ft: FormattedText, escape: bool)
    requires Exchangeable(ft, escape)
    ensures PairwiseBy(Clear, Chained(EntityTokens(ft), |ft.entities|))
  {
    var n, lists := |ft.entities|, EntityTokens(ft);
    forall i | 0 <= i < n ensures PairwiseBy(Clear, lists[i]) {
      OwnClear(ft, escape, i);
    }
    forall i, j, x, y | 0 <= i < j < n && x in lists[i] && y in lists[j] ensures Clear(x, y) {
      OwnMembers(ft, i, x);
      OwnMembers(ft, j, y);
      OthersClear(ft, escape, i, j, x, y);
    }
    ChainedPairwise(Clear, lists, n);
  }

  lemma {:induction false} TokensAndEscapesClear(ft: FormattedText, p: int, q: int)
    requires Exchangeable(ft, true)
    requires 0 <= p < |Chained(EntityTokens(ft), |ft.entities|)| && 0 <= q < |EscapeEdits(ft.plainText, 0)|
    ensures Clear(Chained(EntityTokens(ft), |ft.entities|)[p], LiftEdits(EscapeEdits(ft.plainText, 0))[q])
  {
    var e := Chained(EntityTokens(ft), |ft.entities|)[p];
    ChainedMembers(EntityTokens(ft), |ft.entities|, e);
    assert e in Chained(EntityTokens(ft), |ft.entities|);
    var i :| 0 <= i < |ft.entities| && e in EntityTokens(ft)[i];
    OwnMembers(ft, i, e);
    EscapeClear(ft, i, e, EscapeEdits(ft.plainText, 0)[q]);
  }

  lemma {:induction false} AllTokensClear(ft: FormattedText, escape: bool)
    requires Exchangeable(ft, escape)
    ensures PairwiseBy(Clear, AllTokens(ft, escape))
  {
    var own := Chained(EntityTokens(ft), |ft.entities|);
    EntityTokensClear(ft, escape);
    if escape {
      var lifted := LiftEdits(EscapeEdits(ft.plainText, 0));
      TagOrder.EscapesClear(ft);
      forall p, q | 0 <= p < |own| && 0 <= q < |lifted| ensures Clear(own[p], lifted[q]) {
        TokensAndEscapesClear(ft, p, q);
      }
      PairwiseConcat(Clear, own, lifted);
    } else {
      assert own + [] == own;
    }
  }

  lemma {:induction false} AllTokensInText(ft: FormattedText, escape: bool)
    requires Exchangeable(ft, escape)
    ensures InText(AllTokens(ft, escape), |ft.plainText|)
  {
    var all, n := AllTokens(ft, escape), |ft.plainText|;
    forall k | 0 <= k < |all| ensures 0 <= all[k].offset && 0 <= all[k].length && all[k].End() <= n {
      assert all[k] in all;
      OneTokenInText(ft, escape, all[k]);
    }
  }

  lemma {:induction false} OneTokenInText(ft: FormattedText, escape: bool, e: Edit<Token>)
    requires Exchangeable(ft, escape) && e in AllTokens(ft, escape)
    ensures 0 <= e.offset && 0 <= e.length && e.End() <= |ft.plainText|
  {
    TokenMembers(ft, escape, e);
    if i :| 0 <= i < |ft.entities| && OwnEdit(ft, i, e) {
      assert Active(ft, i);
    } else {
      var x :| x in EscapeEdits(ft.plainText, 0) && e == LiftEdit(x);
      var k :| 0 <= k < |EscapeEdits(ft.plainText, 0)| && EscapeEdits(ft.plainText, 0)[k] == x;
      EscapeShape(ft.plainText, k);
    }
  }

  // The sort works on strings; the tokens follow it

  lemma {:induction false} PickOut<T>(s: seq<T>, order: seq<T>) returns (j: nat)
    requires order != [] && multiset(s) == multiset(order)
    ensures j < |s| && s[j] == order[0] && multiset(s[..j] + s[j + 1..]) == multiset(order[1..])
  {
    assert order == [order[0]] + order[1..];
    assert order[0] in multiset(s);
    var k :| 0 <= k < |s| && s[k] == order[0];
    j := k;
    assert s == s[..j] + [s[j]] + s[j + 1..];
    OneLess(order[0], order[1..], s[..j], s[j + 1..]);
  }

  lemma {:induction false} SpellWithout(tags: seq<(string, string)>, es: seq<Edit<Token>>, j: nat)
    requires j < |es|
    ensures SpellEdits(tags, es[..j] + es[j + 1..]) == SpellEdits(tags, es)[..j] + SpellEdits(tags, es)[j + 1..]
  {
  }

  lemma {:induction false} MovedFirst<T>(es: seq<T>, j: nat, rest: seq<T>)
    requires j < |es| && multiset(rest) == multiset(es[..j] + es[j + 1..])
    ensures multiset([es[j]] + rest) == multiset(es)
  {
    assert es == es[..j] + [es[j]] + es[j + 1..];
  }

  lemma {:induction false} PutFirst(tags: seq<(string, string)>, es: seq<Edit<Token>>, j: nat, rest: seq<Edit<Token>>,
        order: seq<Edit<char>>)
    requires j < |es| && multiset(rest) == multiset(es[..j] + es[j + 1..])
    requires order != [] && SpellEdits(tags, rest) == order[1..] && SpellEdit(tags, es[j]) == order[0]
    ensures multiset([es[j]] + rest) == multiset(es) && SpellEdits(tags, [es[j]] + rest) == order
  {
    MovedFirst(es, j, rest);
    SpellEditsConcat(tags, [es[j]], rest);
    assert order == [order[0]] + order[1..];
  }

  /** Whatever order the spelled edits are put in, the edits can be put in. */
  lemma {:induction false} OrderedAlike(tags: seq<(string, string)>, es: seq<Edit<Token>>, order: seq<Edit<char>>)
    returns (es': seq<Edit<Token>>)
    requires multiset(SpellEdits(tags, es)) == multiset(order)
    ensures multiset(es') == multiset(es) && SpellEdits(tags, es') == order
    decreases |order|
  {
    if order == [] {
      assert |multiset(SpellEdits(tags, es))| == 0;
      es' := [];
    } else {
      var j := PickOut(SpellEdits(tags, es), order);
      SpellWithout(tags, es, j);
      var rest := OrderedAlike(tags, es[..j] + es[j + 1..], order[1..]);
      PutFirst(tags, es, j, rest, order);
      es' := [es[j]] + rest;
    }
  }

  lemma {:induction false} SpelledSorted(tags: seq<(string, string)>, es: seq<Edit<Token>>)
    requires Sorted(SpellEdits(tags, es))
    ensures Sorted(es)
  {
    forall i, j | 0 <= i < j < |es| ensures !SortsBefore(es[j], es[i]) {
      assert !SortsBefore(SpellEdits(tags, es)[j], SpellEdits(tags, es)[i]);
    }
  }

  lemma {:induction false} SpelledReversed(tags: seq<(string, string)>, es: seq<Edit<Token>>)
    ensures SpellEdits(tags, Reverse(es)) == Reverse(SpellEdits(tags, es))
  {
  }

  lemma {:induction false} SpelledClear(tags: seq<(string, string)>, es: seq<Edit<Token>>, n: int)
    requires PairwiseBy(Clear, es) && InText(es, n)
    ensures PairwiseBy(Clear, SpellEdits(tags, es)) && InText(SpellEdits(tags, es), n)
  {
    forall i, j | 0 <= i < j < |es| ensures Clear(SpellEdits(tags, es)[i], SpellEdits(tags, es)[j]) {
      assert Clear(es[i], es[j]);
    }
  }

  /** The tokens in the order that the sort has chosen: carried out one after another they spell the parsed string. */
  lemma {:induction false} ParsedTokens(ft: FormattedText, escape: bool, sorted: seq<Edit<char>>)
    returns (asc: seq<Edit<Token>>)
    requires Exchangeable(ft, escape) && multiset(sorted) == multiset(AllEdits(ft, escape)) && Sorted(sorted)
    ensures forall k :: 0 <= k < |sorted| ==> sorted[k].length >= 0
    ensures OneAfterAnother(asc) && Ordered(asc, 0, |ft.plainText|)
    ensures forall e :: e in asc <==> e in AllTokens(ft, escape)
    ensures ApplyAll(ft.plainText, sorted, 0)
            == Spell(TagTexts(ft), Substitute(Lift(ft.plainText), asc, 0, |ft.plainText|))
  {
    SpellAllTokens(ft, escape);
    AllTokensClear(ft, escape);
    AllTokensInText(ft, escape);
    asc := SortedTokens(TagTexts(ft), ft.plainText, AllTokens(ft, escape), AllEdits(ft, escape), sorted);
  }

  /** Sorting and carrying out what edits on tokens are spelled as, is spelling what the edits make of the text, in some
      order. */
  lemma {:induction false} SortedTokens(tags: seq<(string, string)>, s: string, all: seq<Edit<Token>>,
        es: seq<Edit<char>>, sorted: seq<Edit<char>>)
    returns (asc: seq<Edit<Token>>)
    requires SpellEdits(tags, all) == es && PairwiseBy(Clear, all) && InText(all, |s|)
    requires multiset(sorted) == multiset(es) && Sorted(sorted)
    ensures forall k :: 0 <= k < |sorted| ==> sorted[k].length >= 0
    ensures OneAfterAnother(asc) && Ordered(asc, 0, |s|) && forall e :: e in asc <==> e in all
    ensures ApplyAll(s, sorted, 0) == Spell(tags, Substitute(Lift(s), asc, 0, |s|))
  {
    var tokens := OrderedAlike(tags, all, sorted);
    SpelledSorted(tags, tokens);
    ClearEditsSubstitute(Lift(s), all, tokens);
    SpelledClear(tags, all, |s|);
    ClearEditsSubstitute(s, es, sorted);
    asc := Reverse(tokens);
    SpelledReversed(tags, tokens);
    SpellSubstitute(tags, s, asc, 0, |s|);
    ReverseMembers(tokens);
    PermutedMembers(tokens, all);
  }

  // Dropping the tags

  /** The edits of the text itself: replacements and escapes. */
  ghost predicate TextEdit(ft: FormattedText, escape: bool, from: nat, x: Edit<char>)
  {
    || (from <= x.offset && exists i: nat :: Replaced(ft, i) && x == ReplacementEdit(ft, i))
    || (escape && x in ScanEdits(ft.plainText, from))
  }

  lemma {:induction false} TagOrText(ft: FormattedText, escape: bool, e: Edit<Token>)
    requires e in AllTokens(ft, escape)
    ensures AllPlain(e.text) || (e.length == 0 && |e.text| == 1 && e.text[0].Tag?)
  {
    TokenMembers(ft, escape, e);
    if i :| 0 <= i < |ft.entities| && OwnEdit(ft, i, e) {
      if e == LiftEdit(ReplacementEdit(ft, i)) {
        assert e.text == Lift(ReplacementEdit(ft, i).text);
      }
    } else {
      var x :| x in EscapeEdits(ft.plainText, 0) && e == LiftEdit(x);
      assert e.text == Lift(x.text);
    }
  }

  ghost predicate IsTagText(e: Edit<Token>)
  {
    e.text != [] && e.text[0].Tag?
  }

  lemma {:induction false} LiftedIsText(x: Edit<char>)
    ensures !IsTagText(LiftEdit(x)) && Edit(x.offset, x.length, DropTags(LiftEdit(x).text)) == x
  {
    DropLift(x.text);
  }

  lemma {:induction false} TextOfToken(ft: FormattedText, escape: bool, x: Edit<char>)
    ensures TextEdit(ft, escape, 0, x) ==> LiftEdit(x) in AllTokens(ft, escape) || x.offset < 0
  {
    TokenMembers(ft, escape, LiftEdit(x));
    EscapesPermuted(ft.plainText, 0);
    PermutedMembers(EscapeEdits(ft.plainText, 0), ScanEdits(ft.plainText, 0));
    if i: nat :| Replaced(ft, i) && x == ReplacementEdit(ft, i) {
      assert OwnEdit(ft, i, LiftEdit(x));
    }
  }

  lemma {:induction false} TokenOfText(ft: FormattedText, escape: bool, e: Edit<Token>)
    requires Exchangeable(ft, escape) && e in AllTokens(ft, escape) && !IsTagText(e)
    ensures TextEdit(ft, escape, 0, Edit(e.offset, e.length, DropTags(e.text)))
  {
    TokenMembers(ft, escape, e);
    if i :| 0 <= i < |ft.entities| && OwnEdit(ft, i, e) {
      assert e == LiftEdit(ReplacementEdit(ft, i)) && Active(ft, i);
      LiftedIsText(ReplacementEdit(ft, i));
    } else {
      var x :| x in EscapeEdits(ft.plainText, 0) && e == LiftEdit(x);
      LiftedIsText(x);
      EscapesPermuted(ft.plainText, 0);
      PermutedMembers(EscapeEdits(ft.plainText, 0), ScanEdits(ft.plainText, 0));
    }
  }

  lemma {:induction false} TextEditsExact(ft: FormattedText, escape: bool, asc: seq<Edit<Token>>, x: Edit<char>)
    requires Exchangeable(ft, escape) && forall e :: e in asc <==> e in AllTokens(ft, escape)
    ensures x in TextEdits(asc) <==> TextEdit(ft, escape, 0, x)
  {
    TextEditMembers(asc, x);
    if x in TextEdits(asc) {
      var k :| 0 <= k < |asc| && !IsTagText(asc[k]) && x == Edit(asc[k].offset, asc[k].length, DropTags(asc[k].text));
      assert asc[k] in asc;
      TokenOfText(ft, escape, asc[k]);
    }
    if TextEdit(ft, escape, 0, x) {
      TextOfToken(ft, escape, x);
      LiftedIsText(x);
      if escape && x in ScanEdits(ft.plainText, 0) { EscapeContent(ft.plainText, 0, x); }
      assert LiftEdit(x) in asc;
      var k :| 0 <= k < |asc| && asc[k] == LiftEdit(x);
    }
  }

  // What is left is what is shown

  /** `es` are the edits of the text from `from` on. */
  ghost predicate Rest(ft: FormattedText, escape: bool, es: seq<Edit<char>>, from: nat)
  {
    && Exchangeable(ft, escape) && from <= |ft.plainText| && Ordered(es, from, |ft.plainText|)
    && forall x :: x in es <==> TextEdit(ft, escape, from, x)
  }

  lemma {:induction false} TextEditSize(ft: FormattedText, escape: bool, from: nat, x: Edit<char>)
    requires Exchangeable(ft, escape) && TextEdit(ft, escape, from, x)
    ensures from <= x.offset && 0 < x.length && x.End() <= |ft.plainText|
  {
    if i: nat :| Replaced(ft, i) && x == ReplacementEdit(ft, i) {
      assert Active(ft, i);
    }
    if escape && x in ScanEdits(ft.plainText, from) { EscapeContent(ft.plainText, from, x); }
  }

  /** The edit at the place is the first one, and the others are those behind it. */
  lemma {:induction false} FirstHere(ft: FormattedText, escape: bool, es: seq<Edit<char>>, from: nat, x: Edit<char>)
    requires Rest(ft, escape, es, from) && TextEdit(ft, escape, from, x) && x.offset == from && 0 < x.length
    requires escape ==> forall y: Edit<char> :: y.offset >= x.End() ==>
               (y in ScanEdits(ft.plainText, from) <==> y in ScanEdits(ft.plainText, x.End()))
    ensures es != [] && es[0] == x && x.End() <= |ft.plainText|
    ensures Rest(ft, escape, es[1..], x.End())
  {
    var n := |ft.plainText|;
    assert x in es;
    TextEditSize(ft, escape, from, x);
    assert es[0] in es;
    TextEditSize(ft, escape, from, es[0]);
    OrderedLengths(es[1..], es[0].End(), n);
    assert es == [es[0]] + es[1..];
    assert forall k :: 0 <= k < |es[1..]| ==> es[1..][k] != x;
    OrderedBounds(es, from, n);
    forall y ensures y in es[1..] <==> TextEdit(ft, escape, x.End(), y) {
      FirstRest(ft, escape, es, from, x, y);
    }
  }

  lemma {:induction false} FirstRest(ft: FormattedText, escape: bool, es: seq<Edit<char>>, from: nat, x: Edit<char>,
        y: Edit<char>)
    requires Rest(ft, escape, es, from) && es != [] && es[0] == x && x.offset == from && 0 < x.length
    requires escape ==> forall y: Edit<char> :: y.offset >= x.End() ==>
               (y in ScanEdits(ft.plainText, from) <==> y in ScanEdits(ft.plainText, x.End()))
    ensures y in es[1..] <==> TextEdit(ft, escape, x.End(), y)
  {
    assert es == [es[0]] + es[1..];
    OrderedLengths(es[1..], x.End(), |ft.plainText|);
    if y in es[1..] {
      var k :| 0 <= k < |es[1..]| && es[1..][k] == y;
      assert y in es && y.offset >= x.End();
    }
    if TextEdit(ft, escape, x.End(), y) {
      TextEditSize(ft, escape, x.End(), y);
      assert TextEdit(ft, escape, from, y);
      assert y in es && y != x;
    }
  }

  lemma {:induction false} ScanBehind(s: string, from: nat, step: nat, y: Edit<char>)
    requires from < |s| && step == (if CrlfAt(s, from) then 2 else 1) && y.offset >= from + step
    ensures y in ScanEdits(s, from) <==> y in ScanEdits(s, from + step)
  {
  }

  lemma {:induction false} NothingScanned(s: string, from: nat, to: nat)
    requires from <= to <= |s| && NothingToEscape(s, from, to)
    ensures ScanEdits(s, from) == ScanEdits(s, to)
    decreases if from <= to then to - from else 0
  {
    if from == to {
    } else {
      assert !Reserved(s[from]) && s[from] != '\n' && !CrlfAt(s, from);
      NothingScanned(s, from + 1, to);
    }
  }

  /** A replaced interval starts here. */
  lemma {:induction false} ReplacedHere(ft: FormattedText, escape: bool, es: seq<Edit<char>>, from: nat, i: nat)
    requires Rest(ft, escape, es, from) && ReplacedFrom(ft, i, from)
    ensures from + ft.entities[i].length <= |ft.plainText|
    ensures es != [] && Rest(ft, escape, es[1..], from + ft.entities[i].length)
    ensures Substitute(ft.plainText, es, from, |ft.plainText|)
            == GetReplacement(ft, ft.entities[i])
               + Substitute(ft.plainText, es[1..], from + ft.entities[i].length, |ft.plainText|)
  {
    var x := ReplacementEdit(ft, i);
    ReplacedIsEdit(ft, escape, from, i);
    FirstHere(ft, escape, es, from, x);
    EditHere(ft.plainText, es, x);
  }

  lemma {:induction false} ReplacedIsEdit(ft: FormattedText, escape: bool, from: nat, i: nat)
    requires Exchangeable(ft, escape) && ReplacedFrom(ft, i, from)
    ensures TextEdit(ft, escape, from, ReplacementEdit(ft, i))
    ensures var end := ReplacementEdit(ft, i).End();
            end <= |ft.plainText| && (escape ==> ScanEdits(ft.plainText, from) == ScanEdits(ft.plainText, end))
  {
    assert Active(ft, i);
    if escape { NothingScanned(ft.plainText, from, ReplacementEdit(ft, i).End()); }
  }

  lemma {:induction false} EditHere(s: string, es: seq<Edit<char>>, x: Edit<char>)
    requires 0 <= x.offset && es != [] && es[0] == x && Ordered(es, x.offset, |s|)
    ensures Ordered(es[1..], x.End(), |s|) && 0 <= x.End()
    ensures Substitute(s, es, x.offset, |s|) == x.text + Substitute(s, es[1..], x.End(), |s|)
  {
    SubstituteHead(s, es, x.offset, |s|);
    assert s[x.offset..x.offset] == "";
  }

  lemma {:induction false} EscapedHere(ft: FormattedText, es: seq<Edit<char>>, from: nat, x: Edit<char>)
    requires Rest(ft, true, es, from) && from < |ft.plainText|
    requires x.offset == from && x.length == (if CrlfAt(ft.plainText, from) then 2 else 1)
    requires x in ScanEdits(ft.plainText, from)
    ensures es != [] && x.End() <= |ft.plainText| && Rest(ft, true, es[1..], x.End())
    ensures Substitute(ft.plainText, es, from, |ft.plainText|)
            == x.text + Substitute(ft.plainText, es[1..], x.End(), |ft.plainText|)
  {
    var s := ft.plainText;
    forall y: Edit<char> | y.offset >= x.End() ensures y in ScanEdits(s, from) <==> y in ScanEdits(s, x.End()) {
      ScanBehind(s, from, x.length, y);
    }
    FirstHere(ft, true, es, from, x);
    EditHere(s, es, x);
  }

  /** Nothing happens here. */
  lemma {:induction false} CopiedHere(ft: FormattedText, escape: bool, es: seq<Edit<char>>, from: nat)
    requires Rest(ft, escape, es, from) && from < |ft.plainText| && ReplacedAt(ft, from) == -1
    requires escape ==> !CrlfAt(ft.plainText, from) && ft.plainText[from] != '\n' && !Reserved(ft.plainText[from])
    ensures Rest(ft, escape, es, from + 1)
    ensures Substitute(ft.plainText, es, from, |ft.plainText|)
            == [ft.plainText[from]] + Substitute(ft.plainText, es, from + 1, |ft.plainText|)
  {
    var s := ft.plainText;
    if escape { assert ScanEdits(s, from) == ScanEdits(s, from + 1); }
    forall x ensures TextEdit(ft, escape, from, x) <==> TextEdit(ft, escape, from + 1, x) {
      NotHere(ft, escape, from, x);
    }
    OrderedBounds(es, from, |s|);
    if es != [] {
      assert es[0] in es;
      TextEditSize(ft, escape, from + 1, es[0]);
    }
    CharBefore(s, es, from);
  }

  lemma {:induction false} NotHere(ft: FormattedText, escape: bool, from: nat, x: Edit<char>)
    requires Exchangeable(ft, escape) && from < |ft.plainText| && ReplacedAt(ft, from) == -1
    requires escape ==> ScanEdits(ft.plainText, from) == ScanEdits(ft.plainText, from + 1)
    ensures TextEdit(ft, escape, from, x) <==> TextEdit(ft, escape, from + 1, x)
  {
    if i: nat :| Replaced(ft, i) && x == ReplacementEdit(ft, i) {
      assert Active(ft, i) && !ReplacedFrom(ft, i, from);
    }
  }

  lemma {:induction false} NothingLeft(ft: FormattedText, escape: bool, es: seq<Edit<char>>)
    requires Rest(ft, escape, es, |ft.plainText|)
    ensures Substitute(ft.plainText, es, |ft.plainText|, |ft.plainText|) == ""
  {
    if es != [] {
      assert es[0] in es;
      TextEditSize(ft, escape, |ft.plainText|, es[0]);
    }
  }

  lemma {:induction false} ShownReplaced(ft: FormattedText, escape: bool, from: nat)
    requires from < |ft.plainText| && ReplacedAt(ft, from) >= 0
    ensures var e := ft.entities[ReplacedAt(ft, from)];
            Shown(ft, escape, from) == GetReplacement(ft, e) + Shown(ft, escape, from + e.length)
  {
  }

  /** The escape that is made here, or none. */
  function EscapeHere(s: string, from: nat): (x: Edit<char>)
    requires from < |s|
    ensures x.offset == from && 0 < x.length && x.End() <= |s|
  {
    if CrlfAt(s, from) then Edit(from, 2, "<br>")
    else if s[from] == '\n' then Edit(from, 1, "<br>")
    else Edit(from, 1, EscapeOf(s[from]))
  }

  predicate EscapedAt(s: string, from: nat)
    requires from < |s|
  {
    CrlfAt(s, from) || s[from] == '\n' || Reserved(s[from])
  }

  lemma {:induction false} ScanFirst(s: string, from: nat)
    requires from < |s| && EscapedAt(s, from)
    ensures EscapeHere(s, from) in ScanEdits(s, from)
  {
  }

  lemma {:induction false} ShownAsIs(ft: FormattedText, escape: bool, from: nat)
    requires from < |ft.plainText| && ReplacedAt(ft, from) == -1
    ensures Shown(ft, escape, from)
            == if escape && EscapedAt(ft.plainText, from) then
                 EscapeHere(ft.plainText, from).text + Shown(ft, escape, EscapeHere(ft.plainText, from).End())
               else [ft.plainText[from]] + Shown(ft, escape, from + 1)
  {
  }

  /** One step through the text, of the substitution and of what is shown. */
  ghost predicate SameStep(ft: FormattedText, escape: bool, es: seq<Edit<char>>, from: nat, head: string,
        es': seq<Edit<char>>, from': nat)
    requires Rest(ft, escape, es, from)
  {
    && from < from' && Rest(ft, escape, es', from')
    && Substitute(ft.plainText, es, from, |ft.plainText|)
       == head + Substitute(ft.plainText, es', from', |ft.plainText|)
    && Shown(ft, escape, from) == head + Shown(ft, escape, from')
  }

  lemma {:induction false} PlainStepHere(ft: FormattedText, escape: bool, es: seq<Edit<char>>, from: nat)
    returns (head: string, es': seq<Edit<char>>, from': nat)
    requires Rest(ft, escape, es, from) && from < |ft.plainText| && ReplacedAt(ft, from) == -1
    ensures SameStep(ft, escape, es, from, head, es', from')
  {
    var s := ft.plainText;
    ShownAsIs(ft, escape, from);
    if escape && EscapedAt(s, from) {
      ScanFirst(s, from);
      EscapedHere(ft, es, from, EscapeHere(s, from));
      head, es', from' := EscapeHere(s, from).text, es[1..], EscapeHere(s, from).End();
    } else {
      CopiedHere(ft, escape, es, from);
      head, es', from' := [s[from]], es, from + 1;
    }
  }

  lemma {:induction false} ReplacedStepHere(ft: FormattedText, escape: bool, es: seq<Edit<char>>, from: nat)
    returns (head: string, es': seq<Edit<char>>, from': nat)
    requires Rest(ft, escape, es, from) && from < |ft.plainText| && ReplacedAt(ft, from) >= 0
    ensures SameStep(ft, escape, es, from, head, es', from')
  {
    var i := ReplacedAt(ft, from);
    ReplacedHere(ft, escape, es, from, i);
    ShownReplaced(ft, escape, from);
    head, es', from' := GetReplacement(ft, ft.entities[i]), es[1..], from + ft.entities[i].length;
  }

  lemma {:induction false} StepHere(ft: FormattedText, escape: bool, es: seq<Edit<char>>, from: nat)
    returns (head: string, es': seq<Edit<char>>, from': nat)
    requires Rest(ft, escape, es, from) && from < |ft.plainText|
    ensures SameStep(ft, escape, es, from, head, es', from')
  {
    if ReplacedAt(ft, from) >= 0 {
      head, es', from' := ReplacedStepHere(ft, escape, es, from);
    } else {
      head, es', from' := PlainStepHere(ft, escape, es, from);
    }
  }

  lemma {:induction false} RestIsShown(ft: FormattedText, escape: bool, es: seq<Edit<char>>, from: nat)
    requires Rest(ft, escape, es, from)
    ensures Substitute(ft.plainText, es, from, |ft.plainText|) == Shown(ft, escape, from)
    decreases |ft.plainText| - from
  {
    if from == |ft.plainText| {
      NothingLeft(ft, escape, es);
    } else {
      var head, es', from' := StepHere(ft, escape, es, from);
      RestIsShown(ft, escape, es', from');
    }
  }

  /** However the sort breaks its ties, what is parsed is, apart from whole tags, the text with each replaced interval
      exchanged for its replacement and the rest as it is, or escaped. */
  lemma {:induction false} ReplacedTextShown(ft: FormattedText, escape: bool, sorted: seq<Edit<char>>)
    returns (tokens: seq<Token>)
    requires Exchangeable(ft, escape) && multiset(sorted) == multiset(AllEdits(ft, escape)) && Sorted(sorted)
    ensures forall k :: 0 <= k < |sorted| ==> sorted[k].length >= 0
    ensures ApplyAll(ft.plainText, sorted, 0) == Spell(TagTexts(ft), tokens)
    ensures DropTags(tokens) == Shown(ft, escape, 0)
  {
    var s := ft.plainText;
    var asc := ParsedTokens(ft, escape, sorted);
    tokens := Substitute(Lift(s), asc, 0, |s|);
    forall k | 0 <= k < |asc|
      ensures AllPlain(asc[k].text) || (asc[k].length == 0 && |asc[k].text| == 1 && asc[k].text[0].Tag?)
    {
      assert asc[k] in asc;
      TagOrText(ft, escape, asc[k]);
    }
    DropSubstitute(s, asc, 0, |s|);
    forall x ensures x in TextEdits(asc) <==> TextEdit(ft, escape, 0, x) {
      TextEditsExact(ft, escape, asc, x);
    }
    RestIsShown(ft, escape, TextEdits(asc), 0);
  }

  lemma {:induction false} EscapedStep(s: string, from: nat)
    requires from < |s|
    ensures GetPlainEscaped(s[from..])
            == if EscapedAt(s, from) then EscapeHere(s, from).text + GetPlainEscaped(s[EscapeHere(s, from).End()..])
               else [s[from]] + GetPlainEscaped(s[from + 1..])
  {
    if CrlfAt(s, from) {
      BreakPair(s, from);
    } else if s[from] == '\n' {
      LoneBreak(s, from);
    } else if Reserved(s[from]) {
      ReservedChar(s, from);
    } else {
      LoneChar(s, from);
    }
  }

  /** Where nothing is replaced this is the plain text, escaped or not. */
  lemma {:induction false} ShownPlain(ft: FormattedText, escape: bool, from: nat)
    requires from <= |ft.plainText| && !(exists i :: Replaced(ft, i))
    ensures Shown(ft, escape, from) == if escape then GetPlainEscaped(ft.plainText[from..]) else ft.plainText[from..]
    decreases |ft.plainText| - from
  {
    var s := ft.plainText;
    if from == |s| {
      assert s[from..] == "";
    } else {
      ShownAsIs(ft, escape, from);
      EscapedStep(s, from);
      ShownPlain(ft, escape, if escape && EscapedAt(s, from) then EscapeHere(s, from).End() else from + 1);
    }
  }

  lemma {:induction false} NoEdits(ft: FormattedText, i: nat)
    requires i < |ft.entities| && ft.entities[i].length >= 0 && EntityEdits(ft, i) == []
    ensures !Replaced(ft, i)
  {
  }

  lemma {:induction false} NothingChained<T>(lists: seq<seq<T>>, n: nat, i: nat)
    requires i < n <= |lists| && Chained(lists, n) == []
    ensures lists[i] == []
  {
    assert |Chained(lists, n - 1) + lists[n - 1]| == |Chained(lists, n - 1)| + |lists[n - 1]|;
    if i == n - 1 {
    } else {
      NothingChained(lists, n - 1, i);
    }
  }

  lemma {:induction false} NothingToDo(ft: FormattedText)
    requires LengthsOk(ft) && TagEdits(ft, |ft.entities|) == []
    ensures !(exists i :: Replaced(ft, i))
  {
    var n := |ft.entities|;
    var edits := seq(n, i requires 0 <= i < n => EntityEdits(ft, i));
    TagEditsChained(ft, edits, n);
    forall i | 0 <= i < n ensures !Replaced(ft, i) {
      NothingChained(edits, n, i);
      NoEdits(ft, i);
    }
  }

  /** For whatever `Parse` promises of its result without a prefix: apart from whole tags it is the text with each
      replaced interval exchanged for its replacement. */
  lemma {:induction false} ParseShows(ft: FormattedText, escape: bool, result: string, sorted: seq<Edit<char>>)
    returns (tokens: seq<Token>)
    requires Exchangeable(ft, escape)
    requires TagEdits(ft, |ft.entities|) == [] ==>
               result == if escape then GetPlainEscaped(ft.plainText) else ft.plainText
    requires TagEdits(ft, |ft.entities|) != [] ==>
               && multiset(sorted) == multiset(AllEdits(ft, escape)) && Sorted(sorted)
               && (forall k :: 0 <= k < |sorted| ==> sorted[k].length >= 0)
               && result == ApplyAll(ft.plainText, sorted, 0)
    ensures result == Spell(TagTexts(ft), tokens) && DropTags(tokens) == Shown(ft, escape, 0)
  {
    if TagEdits(ft, |ft.entities|) == [] {
      NothingToDo(ft);
      ShownPlain(ft, escape, 0);
      assert ft.plainText[0..] == ft.plainText;
      tokens := Lift(result);
      SpellLift(TagTexts(ft), result);
      DropLift(result);
    } else {
      tokens := ReplacedTextShown(ft, escape, sorted);
    }
  }
}
