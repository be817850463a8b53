/** Texts put into a template, as in the preview of a photo with its caption (src/formattedtext.cpp:256-260). */
module Prefixes {
  import opened Lists
  import opened Substitution
  import opened FormattedTexts
  import opened MarkupTokens

  /** FormattedText::argFrom for a template with text before and behind its place. */
  function ArgFrom(ft: FormattedText, before: string, behind: string): FormattedText
  {
    ft.(plainText := before + ft.plainText + behind, prefixOffset := ft.prefixOffset + |before|)
  }

  // Edits behind a prefix

  /** The edits lie in a text of length n, each before those in front of it. */
  ghost predicate FromTheRight<T>(es: seq<Edit<T>>, n: int)
  {
    && (forall k :: 0 <= k < |es| ==> 0 <= es[k].offset && 0 <= es[k].length && es[k].End() <= n)
    && (forall i, j :: 0 <= i < j < |es| ==> es[j].End() <= es[i].offset)
  }

  lemma {:induction false} RestFromTheRight<T>(es: seq<Edit<T>>, n: int, m: int)
    requires FromTheRight(es, n) && es != [] && es[0].offset <= m
    ensures FromTheRight(es[1..], m)
  {
    var rest := es[1..];
    assert forall k :: 0 <= k < |rest| ==> rest[k] == es[k + 1];
  }

  lemma {:induction false} Around<T>(p: seq<T>, s: seq<T>, q: seq<T>, k: int)
    requires 0 <= k <= |s|
    ensures (p + s + q)[..|p| + k] == p + s[..k] && (p + s + q)[|p| + k..] == s[k..] + q
  {
  }

  lemma {:induction false} Regroup<T>(p: seq<T>, l: seq<T>, x: seq<T>, r: seq<T>, q: seq<T>)
    ensures (p + l) + x + (r + q) == p + (l + x + r) + q
  {
  }

  lemma {:induction false} SpliceBehind<T>(p: seq<T>, s: seq<T>, q: seq<T>, e: Edit<T>)
    requires 0 <= e.offset && 0 <= e.length && e.End() <= |s|
    ensures Splice(p + s + q, |p| + e.offset, e.length, e.text) == p + Splice(s, e.offset, e.length, e.text) + q
  {
    Around(p, s, q, e.offset);
    Around(p, s, q, e.End());
    Regroup(p, s[..e.offset], e.text, s[e.End()..], q);
  }

  /** Shifted by the length of what stands in front, the edits change the text in the middle as they would change it
      alone. */
  lemma {:induction false} AppliedBehind<T>(p: seq<T>, s: seq<T>, q: seq<T>, es: seq<Edit<T>>)
    requires FromTheRight(es, |s|)
    ensures ApplyAll(p + s + q, es, |p|) == p + ApplyAll(s, es, 0) + q
    decreases |es|
  {
    if es == [] {
    } else {
      var s' := Splice(s, es[0].offset, es[0].length, es[0].text);
      SpliceBehind(p, s, q, es[0]);
      RestFromTheRight(es, |s|, |s'|);
      AppliedBehind(p, s', q, es[1..]);
    }
  }

  lemma {:induction false} SortedFromTheRight<T>(es: seq<Edit<T>>, sorted: seq<Edit<T>>, n: int)
    requires InText(es, n) && multiset(sorted) == multiset(es) && OneAfterAnother(Reverse(sorted))
    ensures FromTheRight(sorted, n)
  {
    var up := Reverse(sorted);
    PermutedMembers(es, sorted);
    forall k | 0 <= k < |sorted| ensures 0 <= sorted[k].offset && 0 <= sorted[k].length && sorted[k].End() <= n {
      assert sorted[k] in sorted;
    }
    forall i, j | 0 <= i < j < |sorted| ensures sorted[j].End() <= sorted[i].offset {
      assert up[|sorted| - 1 - j] == sorted[j] && up[|sorted| - 1 - i] == sorted[i];
    }
  }

  // Tags in a template

  predicate LinksToItsText(kind: EntityType)
  {
    kind in {EntityType.Url, EntityType.PhoneNumber, EntityType.EmailAddress, EntityType.BotCommand,
             EntityType.Mention, EntityType.Hashtag, EntityType.Cashtag}
  }

  /** The address of a link is cut out of the whole text without the shift: the tags stay what they are exactly if they
      hold none, or if the same characters happen to stand there. */
  lemma {:induction false} TagsExact(ft: FormattedText, before: string, behind: string, i: nat)
    requires i < |ft.entities|
    ensures var wrapped, e := ArgFrom(ft, before, behind), ft.entities[i];
            GetHtmlTags(wrapped, i) == GetHtmlTags(ft, i)
            <==> LinksToItsText(e.kind) ==>
                   TextPart(wrapped.plainText, e.offset, e.length) == TextPart(ft.plainText, e.offset, e.length)
  {
    var wrapped, e := ArgFrom(ft, before, behind), ft.entities[i];
    var a, b := TextPart(wrapped.plainText, e.offset, e.length), TextPart(ft.plainText, e.offset, e.length);
    SameMiddle("<a href=\"", a, b, "\">");
    SameMiddle("<a href=\"tel:", a, b, "\">");
    SameMiddle("<a href=\"mailto:", a, b, "\">");
    SameMiddle("<a href=\"botCommand://", a, b, "\">");
    SameMiddle("<a href=\"user://", a, b, "\">");
    SameMiddle("<a href=\"hashtag://", a, b, "\">");
    SameMiddle("<a href=\"cashtag://", a, b, "\">");
  }

  lemma {:induction false} SameMiddle(p: string, a: string, b: string, q: string)
    ensures p + a + q == p + b + q <==> a == b
  {
    if p + a + q == p + b + q {
      assert |a| == |b|;
      assert (p + a + q)[|p|..|p| + |a|] == a && (p + b + q)[|p|..|p| + |b|] == b;
    }
  }

  ghost predicate SameTags(ft: FormattedText, before: string, behind: string)
  {
    forall i :: 0 <= i < |ft.entities| ==> GetHtmlTags(ArgFrom(ft, before, behind), i) == GetHtmlTags(ft, i)
  }

  lemma {:induction false} SameEntityEdits(ft: FormattedText, before: string, behind: string, i: nat)
    requires i < |ft.entities| && ft.entities[i].length >= 0
    requires GetHtmlTags(ArgFrom(ft, before, behind), i) == GetHtmlTags(ft, i)
    ensures EntityEdits(ArgFrom(ft, before, behind), i) == EntityEdits(ft, i)
  {
    var wrapped, e := ArgFrom(ft, before, behind), ft.entities[i];
    assert GetReplacement(wrapped, e) == GetReplacement(ft, e);
  }

  /** With the same tags, and without escaping, the edits of a text in a template are those of the text. */
  lemma {:induction false} SameEdits(ft: FormattedText, before: string, behind: string)
    requires LengthsOk(ft) && SameTags(ft, before, behind)
    ensures AllEdits(ArgFrom(ft, before, behind), false) == AllEdits(ft, false)
  {
    var n := |ft.entities|;
    var edits := seq(n, i requires 0 <= i < n => EntityEdits(ft, i));
    forall i | 0 <= i < n ensures edits[i] == EntityEdits(ArgFrom(ft, before, behind), i) {
      SameEntityEdits(ft, before, behind, i);
    }
    TagEditsChained(ft, edits, n);
    TagEditsChained(ArgFrom(ft, before, behind), edits, n);
  }

  /** The parse of the text in the template is then the template around the parse of the text. */
  lemma {:induction false} TemplateAroundParse(s: string, es: seq<Edit<char>>, sorted: seq<Edit<char>>, before: string,
        behind: string)
    requires PairwiseBy(Clear, es) && InText(es, |s|) && multiset(sorted) == multiset(es) && Sorted(sorted)
    ensures forall k :: 0 <= k < |sorted| ==> sorted[k].length >= 0
    ensures ApplyAll(before + s + behind, sorted, |before|) == before + ApplyAll(s, sorted, 0) + behind
  {
    ClearEditsSubstitute(s, es, sorted);
    SortedFromTheRight(es, sorted, |s|);
    AppliedBehind(before, s, behind, sorted);
  }

  /** A mention in a photo's caption, shown behind a word of the template, links to the letters of that word. */
  lemma {:induction false} LinkPointsElsewhere()
    ensures var ft := FormattedText("@bob", [Entity(0, 4, Mention, NoData)], 0, false, 0, map[]);
            && GetHtmlTags(ft, 0).0 == "<a href=\"user://@bob\">"
            && GetHtmlTags(ArgFrom(ft, "Photo: ", ""), 0).0 == "<a href=\"user://Phot\">"
  {
    var ft := FormattedText("@bob", [Entity(0, 4, Mention, NoData)], 0, false, 0, map[]);
    assert TextPart(ft.plainText, 0, 4) == "@bob";
    var wrapped := ArgFrom(ft, "Photo: ", "");
    assert TextPart(wrapped.plainText, 0, 4) == "Phot";
    assert "<a href=\"user://" + "@bob" + "\">" == "<a href=\"user://@bob\">";
    assert "<a href=\"user://" + "Phot" + "\">" == "<a href=\"user://Phot\">";
  }
}
