/** What the tags in a parsed text enclose. The same edits are carried out with one token per tag,
    so that tags stay apart from text; spelling the tokens out gives the parsed string. */
module MarkupTokens {
  import opened Substitution
  import opened FormattedTexts

  datatype Token = Plain(c: char) | Tag(entity: nat, opening: bool)

  function Lift(s: string): (r: seq<Token>)
    ensures |r| == |s| && forall k :: 0 <= k < |s| ==> r[k] == Plain(s[k])
  {
    seq(|s|, k requires 0 <= k < |s| => Plain(s[k]))
  }

  /** The opening and closing tags of all entities. */
  function TagTexts(ft: FormattedText): seq<(string, string)> {
    seq(|ft.entities|, i requires 0 <= i < |ft.entities| => GetHtmlTags(ft, i))
  }

  function SpellToken(tags: seq<(string, string)>, t: Token): string
  {
    match t
    case Plain(c) => [c]
    case Tag(i, opening) => if i >= |tags| then "" else if opening then tags[i].0 else tags[i].1
  }

  function Spell(tags: seq<(string, string)>, ts: seq<Token>): string
  {
    if ts == [] then "" else SpellToken(tags, ts[0]) + Spell(tags, ts[1..])
  }

  lemma {:induction false} SpellConcat(tags: seq<(string, string)>, a: seq<Token>, b: seq<Token>)
    ensures Spell(tags, a + b) == Spell(tags, a) + Spell(tags, b)
  {
    if a == [] {
      assert a + b == b;
    } else {
      assert (a + b)[1..] == a[1..] + b;
      SpellConcat(tags, a[1..], b);
    }
  }

  lemma {:induction false} SpellLift(tags: seq<(string, string)>, s: string)
    ensures Spell(tags, Lift(s)) == s
  {
    if s == "" {
    } else {
      assert Lift(s)[1..] == Lift(s[1..]);
      SpellLift(tags, s[1..]);
    }
  }

  /** Tokens without the tags. */
  function DropTags(ts: seq<Token>): string
  {
    if ts == [] then "" else (if ts[0].Plain? then [ts[0].c] else "") + DropTags(ts[1..])
  }

  lemma {:induction false} DropConcat(a: seq<Token>, b: seq<Token>)
    ensures DropTags(a + b) == DropTags(a) + DropTags(b)
  {
    if a == [] {
      assert a + b == b;
    } else {
      assert (a + b)[1..] == a[1..] + b;
      DropConcat(a[1..], b);
      var head, x, y := if a[0].Plain? then [a[0].c] else "", DropTags(a[1..]), DropTags(b);
      assert head + (x + y) == (head + x) + y;
    }
  }

  lemma {:induction false} DropLift(s: string)
    ensures DropTags(Lift(s)) == s
  {
    if s == "" {
    } else {
      assert Lift(s)[1..] == Lift(s[1..]);
      DropLift(s[1..]);
    }
  }

  /** Every closing tag closes the tag opened last; nothing stays open. `open` are the entities open before. */
  predicate Balanced(ts: seq<Token>, open: seq<nat>)
    decreases |ts|
  {
    if ts == [] then open == []
    else match ts[0]
      case Plain(_) => Balanced(ts[1..], open)
      case Tag(i, true) => Balanced(ts[1..], open + [i])
      case Tag(i, false) => open != [] && open[|open| - 1] == i && Balanced(ts[1..], open[..|open| - 1])
  }

  lemma {:induction false} BalancedPlain(s: string, ts: seq<Token>, open: seq<nat>)
    ensures Balanced(Lift(s) + ts, open) == Balanced(ts, open)
  {
    if s == "" {
      assert Lift(s) + ts == ts;
    } else {
      assert (Lift(s) + ts)[1..] == Lift(s[1..]) + ts;
      BalancedPlain(s[1..], ts, open);
    }
  }

  // The edits on tokens

  function OpenEdit(ft: FormattedText, i: nat): Edit<Token>
    requires i < |ft.entities|
  {
    Edit(ft.entities[i].offset, 0, [Tag(i, true)])
  }

  function CloseEdit(ft: FormattedText, i: nat): Edit<Token>
    requires i < |ft.entities|
  {
    Edit(ft.entities[i].End(), 0, [Tag(i, false)])
  }

  function LiftEdit(e: Edit<char>): Edit<Token>
  {
    Edit(e.offset, e.length, Lift(e.text))
  }

  function LiftEdits(es: seq<Edit<char>>): (r: seq<Edit<Token>>)
    ensures |r| == |es| && forall k :: 0 <= k < |es| ==> r[k] == LiftEdit(es[k])
  {
    seq(|es|, k requires 0 <= k < |es| => LiftEdit(es[k]))
  }

  function SpellEdit(tags: seq<(string, string)>, e: Edit<Token>): Edit<char>
  {
    Edit(e.offset, e.length, Spell(tags, e.text))
  }

  function SpellEdits(tags: seq<(string, string)>, es: seq<Edit<Token>>): (r: seq<Edit<char>>)
    ensures |r| == |es| && forall k :: 0 <= k < |es| ==> r[k] == SpellEdit(tags, es[k])
  {
    seq(|es|, k requires 0 <= k < |es| => SpellEdit(tags, es[k]))
  }

  /** No entity is shown by a replacement of its text. */
  ghost predicate NoReplacements(ft: FormattedText)
  {
    forall i :: 0 <= i < |ft.entities| ==> GetReplacement(ft, ft.entities[i]) == ""
  }

  ghost function TagTokens(ft: FormattedText, n: nat): seq<Edit<Token>>
    requires n <= |ft.entities|
  {
    if n == 0 then []
    else TagTokens(ft, n - 1) + TokensOf(ft, n - 1)
  }

  ghost function TokensOf(ft: FormattedText, i: nat): seq<Edit<Token>>
    requires i < |ft.entities|
  {
    if Tagged(ft, i) then [OpenEdit(ft, i), CloseEdit(ft, i)] else []
  }

  ghost function TokenEdits(ft: FormattedText, escape: bool): seq<Edit<Token>>
  {
    TagTokens(ft, |ft.entities|) + (if escape then LiftEdits(EscapeEdits(ft.plainText, 0)) else [])
  }

  lemma {:induction false} SpellLiftedEdits(tags: seq<(string, string)>, es: seq<Edit<char>>)
    ensures SpellEdits(tags, LiftEdits(es)) == es
  {
    forall k | 0 <= k < |es| ensures SpellEdit(tags, LiftEdit(es[k])) == es[k] {
      SpellLift(tags, es[k].text);
    }
  }

  /** The first n lists, one after the other. */
  function Chained<T>(lists: seq<seq<T>>, n: nat): seq<T>
    requires n <= |lists|
  {
    if n == 0 then [] else Chained(lists, n - 1) + lists[n - 1]
  }

  lemma {:induction false} SpellChained(tags: seq<(string, string)>, tokens: seq<seq<Edit<Token>>>,
        edits: seq<seq<Edit<char>>>, n: nat)
    requires n <= |tokens| == |edits| && forall i :: 0 <= i < |tokens| ==> SpellEdits(tags, tokens[i]) == edits[i]
    ensures SpellEdits(tags, Chained(tokens, n)) == Chained(edits, n)
  {
    if n > 0 {
      SpellChained(tags, tokens, edits, n - 1);
      SpellEditsConcat(tags, Chained(tokens, n - 1), tokens[n - 1]);
    }
  }

  lemma {:induction false} TagTokensChained(ft: FormattedText, tokens: seq<seq<Edit<Token>>>, n: nat)
    requires n <= |ft.entities| == |tokens| && forall i :: 0 <= i < |tokens| ==> tokens[i] == TokensOf(ft, i)
    ensures TagTokens(ft, n) == Chained(tokens, n)
  {
    if n > 0 {
      TagTokensChained(ft, tokens, n - 1);
    }
  }

  lemma {:induction false} TagEditsChained(ft: FormattedText, edits: seq<seq<Edit<char>>>, n: nat)
    requires n <= |ft.entities| == |edits| && LengthsOk(ft)
    requires forall i :: 0 <= i < |edits| ==> edits[i] == EntityEdits(ft, i)
    ensures TagEdits(ft, n) == Chained(edits, n)
  {
    if n > 0 {
      TagEditsChained(ft, edits, n - 1);
    }
  }

  lemma {:induction false} SpellTagTokens(ft: FormattedText)
    requires LengthsOk(ft) && NoReplacements(ft)
    ensures SpellEdits(TagTexts(ft), TagTokens(ft, |ft.entities|)) == TagEdits(ft, |ft.entities|)
  {
    var n := |ft.entities|;
    var tokens := seq(n, i requires 0 <= i < n => TokensOf(ft, i));
    var edits := seq(n, i requires 0 <= i < n => EntityEdits(ft, i));
    forall i | 0 <= i < n ensures SpellEdits(TagTexts(ft), tokens[i]) == edits[i] {
      SpellTokensOf(ft, i);
    }
    SpellChained(TagTexts(ft), tokens, edits, n);
    TagTokensChained(ft, tokens, n);
    TagEditsChained(ft, edits, n);
  }

  lemma {:induction false} SpellTokensOf(ft: FormattedText, i: nat)
    requires i < |ft.entities| && ft.entities[i].length >= 0 && GetReplacement(ft, ft.entities[i]) == ""
    ensures SpellEdits(TagTexts(ft), TokensOf(ft, i)) == EntityEdits(ft, i)
  {
    SpellOne(TagTexts(ft), Tag(i, true));
    SpellOne(TagTexts(ft), Tag(i, false));
    assert SpellEdits(TagTexts(ft), []) == [];
    assert SpellEdits(TagTexts(ft), [OpenEdit(ft, i), CloseEdit(ft, i)])
        == [SpellEdit(TagTexts(ft), OpenEdit(ft, i)), SpellEdit(TagTexts(ft), CloseEdit(ft, i))];
  }

  lemma {:induction false} SpellOne(tags: seq<(string, string)>, t: Token)
    ensures Spell(tags, [t]) == SpellToken(tags, t)
  {
    assert [t][1..] == [];
  }

  /** The tokens' edits, spelled out, are the edits that are parsed with. */
  lemma {:induction false} SpellTokenEdits(ft: FormattedText, escape: bool)
    requires LengthsOk(ft) && NoReplacements(ft)
    ensures SpellEdits(TagTexts(ft), TokenEdits(ft, escape)) == AllEdits(ft, escape)
  {
    SpellTagTokens(ft);
    SpellLiftedEdits(TagTexts(ft), EscapeEdits(ft.plainText, 0));
    var tags := TagTokens(ft, |ft.entities|);
    var escapes := LiftEdits(EscapeEdits(ft.plainText, 0));
    SpellEditsConcat(TagTexts(ft), tags, escapes);
  }

  lemma {:induction false} SpellEditsConcat(tags: seq<(string, string)>, a: seq<Edit<Token>>, b: seq<Edit<Token>>)
    ensures SpellEdits(tags, a + b) == SpellEdits(tags, a) + SpellEdits(tags, b)
  {
  }

  lemma {:induction false} SpellOrdered(tags: seq<(string, string)>, es: seq<Edit<Token>>, lo: int, hi: int)
    requires Ordered(es, lo, hi)
    ensures Ordered(SpellEdits(tags, es), lo, hi)
  {
    if es == [] {
    } else {
      assert SpellEdits(tags, es)[1..] == SpellEdits(tags, es[1..]);
      SpellOrdered(tags, es[1..], es[0].End(), hi);
    }
  }

  /** Spelling out commutes with substituting. */
  lemma {:induction false} SpellSubstitute(tags: seq<(string, string)>, s: string, es: seq<Edit<Token>>, lo: int,
        hi: int)
    requires 0 <= lo && hi <= |s| && Ordered(es, lo, hi)
    ensures Ordered(SpellEdits(tags, es), lo, hi)
    ensures Spell(tags, Substitute(Lift(s), es, lo, hi)) == Substitute(s, SpellEdits(tags, es), lo, hi)
  {
    OrderedBounds(es, lo, hi);
    SpellOrdered(tags, es, lo, hi);
    if es == [] {
      assert Lift(s)[lo..hi] == Lift(s[lo..hi]);
      SpellLift(tags, s[lo..hi]);
    } else {
      var e := es[0];
      OrderedBounds(es[1..], e.End(), hi);
      SpellSubstitute(tags, s, es[1..], e.End(), hi);
      assert SpellEdits(tags, es)[1..] == SpellEdits(tags, es[1..]);
      SubstituteHead(Lift(s), es, lo, hi);
      SubstituteHead(s, SpellEdits(tags, es), lo, hi);
      SpellStep(tags, s, lo, e.offset, e.text, Substitute(Lift(s), es[1..], e.End(), hi),
                Substitute(Lift(s), es, lo, hi), Substitute(s, SpellEdits(tags, es), lo, hi));
    }
  }

  lemma {:induction false} SpellStep(tags: seq<(string, string)>, s: string, lo: int, hi: int, text: seq<Token>,
        rest: seq<Token>,
                                     whole: seq<Token>, spelled: string)
    requires 0 <= lo <= hi <= |s| && whole == Lift(s)[lo..hi] + text + rest
    requires spelled == s[lo..hi] + Spell(tags, text) + Spell(tags, rest)
    ensures Spell(tags, whole) == spelled
  {
    SpellThree(tags, s, lo, hi, text, rest);
  }

  lemma {:induction false} SpellThree(tags: seq<(string, string)>, s: string, lo: int, hi: int, text: seq<Token>,
        rest: seq<Token>)
    requires 0 <= lo <= hi <= |s|
    ensures Spell(tags, Lift(s)[lo..hi] + text + rest) == s[lo..hi] + Spell(tags, text) + Spell(tags, rest)
  {
    assert Lift(s)[lo..hi] == Lift(s[lo..hi]);
    SpellLift(tags, s[lo..hi]);
    SpellConcat(tags, Lift(s[lo..hi]) + text, rest);
    SpellConcat(tags, Lift(s[lo..hi]), text);
  }

  // Nested entities

  ghost predicate TwoNested(a: Entity, b: Entity)
  {
    && a.offset != b.offset && a.End() != b.End() && a.offset != b.End() && b.offset != a.End()
    && (a.End() < b.offset || b.End() < a.offset
        || (a.offset < b.offset && b.End() < a.End()) || (b.offset < a.offset && a.End() < b.End()))
  }

  /** The tagged entities are not empty, lie in the text, are nested or disjoint, and share no boundary. */
  ghost predicate WellNested(ft: FormattedText)
  {
    && (forall i :: 0 <= i < |ft.entities| && Tagged(ft, i) ==>
          0 <= ft.entities[i].offset && 0 < ft.entities[i].length && ft.entities[i].End() <= |ft.plainText|)
    && (forall i, j :: 0 <= i < j < |ft.entities| && Tagged(ft, i) && Tagged(ft, j) ==>
          TwoNested(ft.entities[i], ft.entities[j]))
  }

  /** No tag stands between the two characters of a CRLF. */
  ghost predicate SplitsNoBreak(ft: FormattedText)
  {
    forall i, k :: 0 <= i < |ft.entities| && Tagged(ft, i) && CrlfAt(ft.plainText, k) ==>
      ft.entities[i].offset != k + 1 && ft.entities[i].End() != k + 1
  }

  ghost predicate IsTagEdit(ft: FormattedText, n: nat, e: Edit<Token>)
    requires n <= |ft.entities|
  {
    exists i: nat :: i < n && Tagged(ft, i) && (e == OpenEdit(ft, i) || e == CloseEdit(ft, i))
  }

  lemma {:induction false} TagTokenMembers(ft: FormattedText, n: nat, e: Edit<Token>)
    requires n <= |ft.entities|
    ensures e in TagTokens(ft, n) <==> IsTagEdit(ft, n, e)
  {
    if n == 0 {
    } else {
      TagTokenMembers(ft, n - 1, e);
      NextTagEdit(ft, n - 1, e);
    }
  }

  lemma {:induction false} NextTagEdit(ft: FormattedText, i: nat, e: Edit<Token>)
    requires i < |ft.entities|
    ensures IsTagEdit(ft, i + 1, e) <==> IsTagEdit(ft, i, e) || e in TokensOf(ft, i)
  {
    var own := TokensOf(ft, i);
    assert e in own <==> Tagged(ft, i) && (e == OpenEdit(ft, i) || e == CloseEdit(ft, i));
  }

  lemma {:induction false} TagTokensApart(ft: FormattedText, n: nat)
    requires n <= |ft.entities| && WellNested(ft)
    ensures PairwiseApart(TagTokens(ft, n)) && InText(TagTokens(ft, n), |ft.plainText|)
  {
    if n == 0 {
    } else {
      var i := n - 1;
      TagTokensApart(ft, i);
      var before, own := TagTokens(ft, i), TokensOf(ft, i);
      forall a, b | 0 <= a < |before| && 0 <= b < |own| ensures Apart(before[a], own[b]) {
        assert before[a] in before;
        EarlierTagApart(ft, i, before[a], own[b]);
      }
      OwnTagsApart(ft, i);
      ApartConcat(before, own);
      InTextConcat(before, own, |ft.plainText|);
    }
  }

  lemma {:induction false} EarlierTagApart(ft: FormattedText, i: nat, earlier: Edit<Token>, own: Edit<Token>)
    requires i < |ft.entities| && WellNested(ft) && earlier in TagTokens(ft, i)
    requires Tagged(ft, i) && (own == OpenEdit(ft, i) || own == CloseEdit(ft, i))
    ensures Apart(earlier, own)
  {
    TagTokenMembers(ft, i, earlier);
    var j: nat :| j < i && Tagged(ft, j) && (earlier == OpenEdit(ft, j) || earlier == CloseEdit(ft, j));
    assert TwoNested(ft.entities[j], ft.entities[i]);
  }

  lemma {:induction false} OwnTagsApart(ft: FormattedText, i: nat)
    requires i < |ft.entities| && WellNested(ft)
    ensures PairwiseApart(TokensOf(ft, i)) && InText(TokensOf(ft, i), |ft.plainText|)
  {
  }

  /** The escapes from left to right, as they follow each other in the text. */
  function ScanEdits(s: string, from: nat): (es: seq<Edit<char>>)
    decreases |s| - from
  {
    if from >= |s| then []
    else if CrlfAt(s, from) then [Edit(from, 2, "<br>")] + ScanEdits(s, from + 2)
    else if s[from] == '\n' then [Edit(from, 1, "<br>")] + ScanEdits(s, from + 1)
    else if Reserved(s[from]) then [Edit(from, 1, EscapeOf(s[from]))] + ScanEdits(s, from + 1)
    else ScanEdits(s, from + 1)
  }

  /** Edits from `from` on, in order, of one character or a CRLF each. */
  ghost predicate Scanned(s: string, es: seq<Edit<char>>, from: nat)
  {
    && InSequence(es)
    && forall k :: 0 <= k < |es| ==> from <= es[k].offset && OneBreakOrCharacter(s, es[k])
  }

  ghost predicate OneBreakOrCharacter(s: string, e: Edit<char>)
  {
    0 <= e.offset && e.End() <= |s| && (e.length == 1 || (e.length == 2 && CrlfAt(s, e.offset)))
  }

  lemma {:induction false} ScannedCons(s: string, e: Edit<char>, rest: seq<Edit<char>>, from: nat)
    requires e.offset == from && OneBreakOrCharacter(s, e) && Scanned(s, rest, from + e.length)
    ensures Scanned(s, [e] + rest, from)
  {
    forall i, j | 0 <= i < j < |[e] + rest| ensures Precedes(([e] + rest)[i], ([e] + rest)[j]) {
      if i > 0 { assert Precedes(rest[i - 1], rest[j - 1]); }
    }
  }

  lemma {:induction false} ScanFacts(s: string, from: nat)
    ensures Scanned(s, ScanEdits(s, from), from)
    decreases |s| - from
  {
    if from >= |s| {
    } else if CrlfAt(s, from) {
      ScanFacts(s, from + 2);
      ScannedCons(s, Edit(from, 2, "<br>"), ScanEdits(s, from + 2), from);
    } else {
      ScanFacts(s, from + 1);
      if s[from] == '\n' {
        ScannedCons(s, Edit(from, 1, "<br>"), ScanEdits(s, from + 1), from);
      } else if Reserved(s[from]) {
        ScannedCons(s, Edit(from, 1, EscapeOf(s[from])), ScanEdits(s, from + 1), from);
      }
    }
  }

  ghost function EscapeSum(s: string, from: nat): multiset<Edit<char>>
  {
    multiset(CharEdits(s, '<', "&lt;", from)) + multiset(CharEdits(s, '>', "&gt;", from))
    + multiset(CharEdits(s, '&', "&amp;", from))
    + multiset(CharEdits(s, '"', "&quot;", from)) + multiset(BreakEdits(s, from))
  }

  /** One step of a list: the edit at `from`, if there is one, and the rest. */
  lemma {:induction false} CharStep(s: string, c: char, replacement: string, from: nat)
    requires from < |s|
    ensures multiset(CharEdits(s, c, replacement, from))
         == CharHere(s, c, replacement, from) + multiset(CharEdits(s, c, replacement, from + 1))
  {
  }

  ghost function CharHere(s: string, c: char, replacement: string, at: nat): multiset<Edit<char>>
    requires at < |s|
  {
    if s[at] == c then multiset{Edit(at, 1, replacement)} else multiset{}
  }

  lemma {:induction false} SumsTogether(a: multiset<Edit<char>>, b: multiset<Edit<char>>, c: multiset<Edit<char>>,
        d: multiset<Edit<char>>, e: multiset<Edit<char>>,
        a': multiset<Edit<char>>, b': multiset<Edit<char>>, c': multiset<Edit<char>>,
        d': multiset<Edit<char>>, e': multiset<Edit<char>>)
    ensures (a + a') + (b + b') + (c + c') + (d + d') + (e + e') == (a + b + c + d + e) + (a' + b' + c' + d' + e')
  {
  }

  /** The edit the scan makes at a place that is not a CRLF. */
  function ScanHere(s: string, at: nat): seq<Edit<char>>
    requires at < |s|
  {
    if s[at] == '\n' then [Edit(at, 1, "<br>")] else if Reserved(s[at]) then [Edit(at, 1, EscapeOf(s[at]))] else []
  }

  lemma {:induction false} OneHere(s: string, at: nat)
    requires at < |s|
    ensures CharHere(s, '<', "&lt;", at) + CharHere(s, '>', "&gt;", at) + CharHere(s, '&', "&amp;", at)
            + CharHere(s, '"', "&quot;", at) + CharHere(s, '\n', "<br>", at)
         == multiset(ScanHere(s, at))
  {
  }

  lemma {:induction false} SumStep(s: string, from: nat)
    requires from < |s| && !CrlfAt(s, from)
    ensures EscapeSum(s, from) == multiset(ScanHere(s, from)) + EscapeSum(s, from + 1)
  {
    CharStep(s, '<', "&lt;", from);
    CharStep(s, '>', "&gt;", from);
    CharStep(s, '&', "&amp;", from);
    CharStep(s, '"', "&quot;", from);
    BreakStep(s, from);
    SumsTogether(CharHere(s, '<', "&lt;", from), CharHere(s, '>', "&gt;", from), CharHere(s, '&', "&amp;", from),
                 CharHere(s, '"', "&quot;", from), CharHere(s, '\n', "<br>", from),
                 multiset(CharEdits(s, '<', "&lt;", from + 1)), multiset(CharEdits(s, '>', "&gt;", from + 1)),
                 multiset(CharEdits(s, '&', "&amp;", from + 1)), multiset(CharEdits(s, '"', "&quot;", from + 1)),
                 multiset(BreakEdits(s, from + 1)));
    OneHere(s, from);
  }

  lemma {:induction false} BreakStep(s: string, from: nat)
    requires from < |s| && !CrlfAt(s, from)
    ensures multiset(BreakEdits(s, from)) == CharHere(s, '\n', "<br>", from) + multiset(BreakEdits(s, from + 1))
  {
    assert BreakEdits(s, from) == (if s[from] == '\n' then [Edit(from, 1, "<br>")] else []) + BreakEdits(s, from + 1);
  }

  lemma {:induction false} SumStepCrlf(s: string, from: nat)
    requires CrlfAt(s, from)
    ensures EscapeSum(s, from) == multiset{Edit(from, 2, "<br>")} + EscapeSum(s, from + 2)
  {
    SkipTwo(s, '<', "&lt;", from);
    SkipTwo(s, '>', "&gt;", from);
    SkipTwo(s, '&', "&amp;", from);
    SkipTwo(s, '"', "&quot;", from);
    assert BreakEdits(s, from) == [Edit(from, 2, "<br>")] + BreakEdits(s, from + 2);
  }

  lemma {:induction false} EscapesSummed(s: string, from: nat)
    ensures EscapeSum(s, from) == multiset(ScanEdits(s, from))
    decreases |s| - from
  {
    if from >= |s| {
    } else if CrlfAt(s, from) {
      EscapesSummed(s, from + 2);
      SumStepCrlf(s, from);
      assert ScanEdits(s, from) == [Edit(from, 2, "<br>")] + ScanEdits(s, from + 2);
    } else {
      EscapesSummed(s, from + 1);
      SumStep(s, from);
      assert ScanEdits(s, from) == ScanHere(s, from) + ScanEdits(s, from + 1);
    }
  }

  /** The five lists of escapes hold the same edits as the scan. */
  lemma {:induction false} EscapesPermuted(s: string, from: nat)
    ensures multiset(EscapeEdits(s, from)) == multiset(ScanEdits(s, from))
  {
    EscapesSummed(s, from);
  }

  lemma {:induction false} SkipTwo(s: string, c: char, replacement: string, from: nat)
    requires CrlfAt(s, from) && c != '\r' && c != '\n'
    ensures CharEdits(s, c, replacement, from) == CharEdits(s, c, replacement, from + 2)
  {
    assert CharEdits(s, c, replacement, from) == [] + CharEdits(s, c, replacement, from + 1);
    assert CharEdits(s, c, replacement, from + 1) == [] + CharEdits(s, c, replacement, from + 2);
  }
}
