/** How the text of a single entity is shown: the tags of its kind around it, or around what replaces it. */
module SingleEntity {
  import opened Lists
  import opened Substitution
  import opened FormattedTexts
  import Decimal

  ghost predicate Single(ft: FormattedText)
  {
    && |ft.entities| == 1
    && 0 <= ft.entities[0].offset && 0 < ft.entities[0].length && ft.entities[0].End() <= |ft.plainText|
  }

  function Inside(ft: FormattedText): string
    requires Single(ft)
  {
    ft.plainText[ft.entities[0].offset..ft.entities[0].End()]
  }

  /** The plain text with `inner` for the text of the entity, and `open` and `close` around it. */
  function Around(ft: FormattedText, open: string, inner: string, close: string): string
    requires Single(ft)
  {
    ft.plainText[..ft.entities[0].offset] + (open + inner + close) + ft.plainText[ft.entities[0].End()..]
  }

  /** `result` is a parse without escapes and without a prefix, however the sort broke its ties. */
  ghost predicate ParsedTo(ft: FormattedText, result: string)
  {
    LengthsOk(ft) && Carried(ft.plainText, AllEdits(ft, false), result)
  }

  ghost predicate Carried(s: string, es: seq<Edit<char>>, result: string)
  {
    exists sorted: seq<Edit<char>> :: CarriedIn(s, es, sorted, result)
  }

  ghost predicate CarriedIn(s: string, es: seq<Edit<char>>, sorted: seq<Edit<char>>, result: string)
  {
    && multiset(sorted) == multiset(es) && Sorted(sorted)
    && (forall k :: 0 <= k < |sorted| ==> sorted[k].length >= 0)
    && result == ApplyAll(s, sorted, 0)
  }

  // The edits of one interval

  function Tags(o: int, end: int, open: string, close: string): seq<Edit<char>>
  {
    if (open, close) == ("", "") then [] else [Edit(o, 0, open), Edit(end, 0, close)]
  }

  function Exchange(o: int, end: int, shown: string): seq<Edit<char>>
  {
    if shown == "" then [] else [Edit(o, end - o, shown)]
  }

  /** From left to right. */
  function Arrayed(o: int, end: int, open: string, shown: string, close: string): seq<Edit<char>>
  {
    if (open, close) == ("", "") then Exchange(o, end, shown)
    else [Edit(o, 0, open)] + Exchange(o, end, shown) + [Edit(end, 0, close)]
  }

  lemma {:induction false} ArrayedFacts(o: int, end: int, open: string, shown: string, close: string, n: int)
    requires 0 <= o < end <= n
    ensures var es, arrayed := Exchange(o, end, shown) + Tags(o, end, open, close), Arrayed(o, end, open, shown, close);
            && (forall x :: x in arrayed <==> x in es)
            && InSequence(arrayed) && PairwiseApart(es) && InText(es, n)
  {
  }

  lemma {:induction false} ExchangeSubstituted(s: string, o: int, end: int, shown: string)
    requires 0 <= o < end <= |s|
    ensures Ordered(Exchange(o, end, shown), o, end)
    ensures Substitute(s, Exchange(o, end, shown), o, end) == if shown == "" then s[o..end] else shown
  {
    if shown == "" {
    } else {
      assert [Edit(o, end - o, shown)] + [] == Exchange(o, end, shown);
      SubstituteCons(s, Edit(o, end - o, shown), [], o, end);
      assert s[o..o] == "" && s[end..end] == "";
    }
  }

  lemma {:induction false} Embedded(s: string, es: seq<Edit<char>>, inner: string, o: int, end: int)
    requires 0 <= o < end <= |s| && Ordered(es, o, end) && Substitute(s, es, o, end) == inner
    ensures Ordered(es, 0, |s|) && Substitute(s, es, 0, |s|) == s[..o] + inner + s[end..]
  {
    SubstituteExtend(s, es, o, end, |s|);
    SubstituteEarlier(s, es, 0, o, |s|);
    assert s[0..o] == s[..o] && s[end..|s|] == s[end..];
    assert s[..o] + (inner + s[end..]) == s[..o] + inner + s[end..];
  }

  lemma {:induction false} Closed(s: string, es: seq<Edit<char>>, inner: string, close: string, o: int, end: int)
    requires 0 <= o < end <= |s| && Ordered(es, o, end) && Substitute(s, es, o, end) == inner
    ensures Ordered(es + [Edit(end, 0, close)], o, end)
    ensures Substitute(s, es + [Edit(end, 0, close)], o, end) == inner + close
  {
    SubstituteSnoc(s, es, Edit(end, 0, close), o, end);
    assert s[end..end] == "" && inner + "" + close == inner + close;
  }

  lemma {:induction false} Opened(s: string, es: seq<Edit<char>>, inner: string, open: string, o: int, end: int)
    requires 0 <= o < end <= |s| && Ordered(es, o, end) && Substitute(s, es, o, end) == inner
    ensures Ordered([Edit(o, 0, open)] + es, o, end)
    ensures Substitute(s, [Edit(o, 0, open)] + es, o, end) == open + inner
  {
    SubstituteCons(s, Edit(o, 0, open), es, o, end);
    assert s[o..o] == "" && "" + open + inner == open + inner;
  }

  lemma {:induction false} ArrayedSubstituted(s: string, o: int, end: int, open: string, shown: string, close: string)
    requires 0 <= o < end <= |s|
    ensures Ordered(Arrayed(o, end, open, shown, close), o, end)
    ensures Substitute(s, Arrayed(o, end, open, shown, close), o, end)
            == open + (if shown == "" then s[o..end] else shown) + close
  {
    var es := Exchange(o, end, shown);
    var inner := if shown == "" then s[o..end] else shown;
    ExchangeSubstituted(s, o, end, shown);
    if (open, close) == ("", "") {
      assert "" + inner + "" == inner;
    } else {
      Closed(s, es, inner, close, o, end);
      Opened(s, es + [Edit(end, 0, close)], inner + close, open, o, end);
      assert [Edit(o, 0, open)] + (es + [Edit(end, 0, close)]) == Arrayed(o, end, open, shown, close);
      assert open + (inner + close) == open + inner + close;
    }
  }

  lemma {:induction false} IntervalCarried(s: string, o: int, end: int, open: string, shown: string, close: string,
        result: string)
    requires 0 <= o < end <= |s| && Carried(s, Exchange(o, end, shown) + Tags(o, end, open, close), result)
    ensures result == s[..o] + (open + (if shown == "" then s[o..end] else shown) + close) + s[end..]
  {
    var es, arrayed := Exchange(o, end, shown) + Tags(o, end, open, close), Arrayed(o, end, open, shown, close);
    var sorted :| CarriedIn(s, es, sorted, result);
    ArrayedFacts(o, end, open, shown, close, |s|);
    SortedEditsSubstitute(s, es, sorted);
    SameWhenSorted(es, arrayed, sorted);
    ArrayedSubstituted(s, o, end, open, shown, close);
    Embedded(s, arrayed, open + (if shown == "" then s[o..end] else shown) + close, o, end);
  }

  lemma {:induction false} SameWhenSorted(es: seq<Edit<char>>, arrayed: seq<Edit<char>>, sorted: seq<Edit<char>>)
    requires InSequence(arrayed) && forall x :: x in arrayed <==> x in es
    requires multiset(sorted) == multiset(es) && InSequence(Reverse(sorted))
    ensures Reverse(sorted) == arrayed
  {
    ReverseMembers(sorted);
    PermutedMembers(sorted, es);
    InSequenceUnique(Reverse(sorted), arrayed);
  }

  // The edits of one entity

  lemma {:induction false} OneEntity(ft: FormattedText, open: string, shown: string, close: string)
    requires Single(ft) && GetHtmlTags(ft, 0) == (open, close) && GetReplacement(ft, ft.entities[0]) == shown
    ensures LengthsOk(ft)
    ensures var e := ft.entities[0];
            AllEdits(ft, false) == Exchange(e.offset, e.End(), shown) + Tags(e.offset, e.End(), open, close)
  {
    var es := EntityEdits(ft, 0);
    assert TagEdits(ft, 1) == [] + es == es;
    assert es + [] == es;
  }

  lemma {:induction false} ParsedAround(ft: FormattedText, result: string, open: string, shown: string, close: string)
    requires Single(ft) && ParsedTo(ft, result)
    requires GetHtmlTags(ft, 0) == (open, close) && GetReplacement(ft, ft.entities[0]) == shown
    ensures result == Around(ft, open, if shown == "" then Inside(ft) else shown, close)
  {
    var e := ft.entities[0];
    OneEntity(ft, open, shown, close);
    IntervalCarried(ft.plainText, e.offset, e.End(), open, shown, close, result);
  }

  // Kinds

  /** Styles have a tag of their own, */
  ghost predicate Styled(kind: EntityType, name: string)
  {
    || (kind.Bold? && name == "b")
    || (kind.Italic? && name == "i")
    || (kind.Underline? && name == "u")
    || (kind.Strikethrough? && name == "s")
    || (kind in {EntityType.Code, EntityType.Pre, EntityType.PreCode} && name == "pre")
  }

  lemma {:induction false} StyleTags(ft: FormattedText, i: nat, name: string)
    requires i < |ft.entities| && Styled(ft.entities[i].kind, name)
    ensures GetHtmlTags(ft, i) == ("<" + name + ">", "</" + name + ">")
    ensures GetReplacement(ft, ft.entities[i]) == ""
  {
    assert "<" + "b" + ">" == "<b>" && "</" + "b" + ">" == "</b>";
    assert "<" + "i" + ">" == "<i>" && "</" + "i" + ">" == "</i>";
    assert "<" + "u" + ">" == "<u>" && "</" + "u" + ">" == "</u>";
    assert "<" + "s" + ">" == "<s>" && "</" + "s" + ">" == "</s>";
    assert "<" + "pre" + ">" == "<pre>" && "</" + "pre" + ">" == "</pre>";
  }

  lemma {:induction false} StyleShown(ft: FormattedText, result: string, name: string)
    requires Single(ft) && ParsedTo(ft, result) && Styled(ft.entities[0].kind, name)
    ensures result == Around(ft, "<" + name + ">", Inside(ft), "</" + name + ">")
  {
    StyleTags(ft, 0, name);
    ParsedAround(ft, result, "<" + name + ">", "", "</" + name + ">");
  }

  /** others link to what the text of the entity says, */
  ghost predicate Linked(kind: EntityType, scheme: string)
  {
    || (kind.Url? && scheme == "")
    || (kind.PhoneNumber? && scheme == "tel:")
    || (kind.EmailAddress? && scheme == "mailto:")
    || (kind.BotCommand? && scheme == "botCommand://")
    || (kind.Mention? && scheme == "user://")
    || (kind.Hashtag? && scheme == "hashtag://")
    || (kind.Cashtag? && scheme == "cashtag://")
  }

  lemma {:induction false} LinkTags(ft: FormattedText, scheme: string)
    requires Single(ft) && Linked(ft.entities[0].kind, scheme)
    ensures GetHtmlTags(ft, 0) == ("<a href=\"" + scheme + Inside(ft) + "\">", "</a>")
    ensures GetReplacement(ft, ft.entities[0]) == ""
  {
    assert TextPart(ft.plainText, ft.entities[0].offset, ft.entities[0].length) == Inside(ft);
    assert "<a href=\"" + "" == "<a href=\"";
    assert "<a href=\"" + "tel:" == "<a href=\"tel:";
    assert "<a href=\"" + "mailto:" == "<a href=\"mailto:";
    assert "<a href=\"" + "botCommand://" == "<a href=\"botCommand://";
    assert "<a href=\"" + "user://" == "<a href=\"user://";
    assert "<a href=\"" + "hashtag://" == "<a href=\"hashtag://";
    assert "<a href=\"" + "cashtag://" == "<a href=\"cashtag://";
  }

  lemma {:induction false} LinkShown(ft: FormattedText, result: string, scheme: string)
    requires Single(ft) && ParsedTo(ft, result) && Linked(ft.entities[0].kind, scheme)
    ensures result == Around(ft, "<a href=\"" + scheme + Inside(ft) + "\">", Inside(ft), "</a>")
  {
    LinkTags(ft, scheme);
    ParsedAround(ft, result, "<a href=\"" + scheme + Inside(ft) + "\">", "", "</a>");
  }

  /** or to what comes with the entity, */
  ghost predicate Targeted(e: Entity, target: string)
  {
    || (e.kind.TextUrl? && e.typeData.Text? && target == e.typeData.text)
    || (e.kind.MentionName? && e.typeData.Number? && target == "userId://" + Decimal.Number(e.typeData.number))
  }

  lemma {:induction false} TargetTags(ft: FormattedText, i: nat, target: string)
    requires i < |ft.entities| && Targeted(ft.entities[i], target)
    ensures GetHtmlTags(ft, i) == ("<a href=\"" + target + "\">", "</a>")
    ensures GetReplacement(ft, ft.entities[i]) == ""
  {
    var e := ft.entities[i];
    if e.kind.MentionName? {
      assert "<a href=\"userId://" == "<a href=\"" + "userId://";
      assert "<a href=\"" + ("userId://" + DataText(e.typeData)) == "<a href=\"userId://" + DataText(e.typeData);
    }
  }

  lemma {:induction false} TargetShown(ft: FormattedText, result: string, target: string)
    requires Single(ft) && ParsedTo(ft, result) && Targeted(ft.entities[0], target)
    ensures result == Around(ft, "<a href=\"" + target + "\">", Inside(ft), "</a>")
  {
    TargetTags(ft, 0, target);
    ParsedAround(ft, result, "<a href=\"" + target + "\">", "", "</a>");
  }

  function Blocks(n: nat): string
  {
    seq(n, _ => '\U{2592}')
  }

  lemma {:induction false} SpoilerTags(ft: FormattedText)
    requires Single(ft) && ft.entities[0].kind.Spoiler? && !ft.isFull
    ensures GetReplacement(ft, ft.entities[0]) == Blocks(ft.entities[0].length) != ""
    ensures GetHtmlTags(ft, 0)
            == if ft.entities[0].typeData == Flag(true) then ("", "")
               else ("<a class=\"spoiler\" href=\"revealSpoiler://0\">", "</a>")
  {
    assert Decimal.Number(0) == "0";
    assert "<a class=\"spoiler\" href=\"revealSpoiler://" + "0" + "\">"
        == "<a class=\"spoiler\" href=\"revealSpoiler://0\">";
  }

  /** and the text of a spoiler is blocks, inside of a link that reveals it as long as it is not revealed. */
  lemma {:induction false} SpoilerShown(ft: FormattedText, result: string)
    requires Single(ft) && ParsedTo(ft, result) && ft.entities[0].kind.Spoiler? && !ft.isFull
    ensures result == if ft.entities[0].typeData == Flag(true) then Around(ft, "", Blocks(ft.entities[0].length), "")
                      else Around(ft, "<a class=\"spoiler\" href=\"revealSpoiler://0\">",
                             Blocks(ft.entities[0].length), "</a>")
  {
    SpoilerTags(ft);
    var tags := GetHtmlTags(ft, 0);
    ParsedAround(ft, result, tags.0, Blocks(ft.entities[0].length), tags.1);
  }

  /** Kinds without a tag are left as they are. */
  ghost predicate Untagged(kind: EntityType)
  {
    kind in {EntityType.Unknown, EntityType.BankCardNumber, EntityType.BlockQuote, EntityType.ExpandableBlockQuote,
             EntityType.MediaTimestamp, EntityType.DateTime}
  }

  lemma {:induction false} NoTags(ft: FormattedText, i: nat)
    requires i < |ft.entities| && Untagged(ft.entities[i].kind)
    ensures GetHtmlTags(ft, i) == ("", "") && GetReplacement(ft, ft.entities[i]) == ""
  {
  }

  lemma {:induction false} OthersShown(ft: FormattedText, result: string)
    requires Single(ft) && ParsedTo(ft, result) && Untagged(ft.entities[0].kind)
    ensures result == ft.plainText
  {
    NoTags(ft, 0);
    ParsedAround(ft, result, "", "", "");
    WholeText(ft);
  }

  lemma {:induction false} WholeText(ft: FormattedText)
    requires Single(ft)
    ensures Around(ft, "", Inside(ft), "") == ft.plainText
  {
    assert "" + Inside(ft) + "" == Inside(ft);
  }
}
