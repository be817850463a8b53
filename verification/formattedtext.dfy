/** Formatted text to HTML: entities become tags, reserved characters are escaped, and all of it is done by
    sorting the edits and carrying them out on the plain text (src/formattedtext.cpp). */
module FormattedTexts {
  import opened Lists
  import opened Substitution
  import Decimal

  datatype EntityType =
    | Unknown | Mention | Hashtag | Cashtag | BotCommand | Url | EmailAddress | PhoneNumber | BankCardNumber
    | Bold | Italic | Underline | Strikethrough | Spoiler | Code | Pre | PreCode | BlockQuote | ExpandableBlockQuote
    | TextUrl | MentionName | CustomEmoji | MediaTimestamp | DateTime

  /** A URL, a user or emoji id, or whether a spoiler is revealed. */
  datatype TypeData = NoData | Text(text: string) | Number(number: int) | Flag(flag: bool)

  datatype Entity = Entity(offset: int, length: int, kind: EntityType, typeData: TypeData)
  {
    function End(): int { offset + length }
  }

  /** Plain and full formatted texts differ in spoilers and custom emojis. */
  datatype FormattedText = FormattedText(
    plainText: string,
    entities: seq<Entity>,
    prefixOffset: int,
    isFull: bool,
    customEmojiSize: int,
    customEmojiPaths: map<int, string>)

  const A_TAG_END := "</a>"

  function DataText(d: TypeData): string
  {
    match d
    case NoData => ""
    case Text(s) => s
    case Number(n) => Decimal.Number(n)
    case Flag(b) => if b then "true" else "false"
  }

  /** QString::mid(offset, length). */
  function TextPart(s: string, offset: int, length: int): string
  {
    var from := if offset < 0 then 0 else offset;
    var to := if offset + length < |s| then offset + length else |s|;
    if from <= to then s[from..to] else ""
  }

  function GetReplacement(ft: FormattedText, e: Entity): string
  {
    match e.kind
    case CustomEmoji =>
      var id := if e.typeData.Number? then e.typeData.number else 0;
      if ft.customEmojiSize == 0 || id !in ft.customEmojiPaths || ft.customEmojiPaths[id] == "" then ""
      else
        var size := Decimal.Number(ft.customEmojiSize);
        "<img align=\"middle\" width=\"" + size + "\" height=\"" + size + "\" src=\"" + ft.customEmojiPaths[id] + "\"/>"
    case Spoiler => if ft.isFull || e.length < 0 then "" else seq(e.length, _ => '\U{2592}')
    case _ => ""
  }

  function GetHtmlTags(ft: FormattedText, i: nat): (string, string)
    requires i < |ft.entities|
  {
    var e := ft.entities[i];
    var part := TextPart(ft.plainText, e.offset, e.length);
    match e.kind
    case Bold => ("<b>", "</b>")
    case Italic => ("<i>", "</i>")
    case Strikethrough => ("<s>", "</s>")
    case Underline => ("<u>", "</u>")
    case Spoiler =>
      if e.typeData == Flag(true) then ("", "")
      else ("<a class=\"spoiler\" href=\"revealSpoiler://" + Decimal.Number(i) + "\">", A_TAG_END)
    case Pre => ("<pre>", "</pre>")
    case Code => ("<pre>", "</pre>")
    case PreCode => ("<pre>", "</pre>")
    case Url => ("<a href=\"" + part + "\">", A_TAG_END)
    case TextUrl => ("<a href=\"" + DataText(e.typeData) + "\">", A_TAG_END)
    case PhoneNumber => ("<a href=\"tel:" + part + "\">", A_TAG_END)
    case EmailAddress => ("<a href=\"mailto:" + part + "\">", A_TAG_END)
    case BotCommand => ("<a href=\"botCommand://" + part + "\">", A_TAG_END)
    case Mention => ("<a href=\"user://" + part + "\">", A_TAG_END)
    case MentionName => ("<a href=\"userId://" + DataText(e.typeData) + "\">", A_TAG_END)
    case Hashtag => ("<a href=\"hashtag://" + part + "\">", A_TAG_END)
    case Cashtag => ("<a href=\"cashtag://" + part + "\">", A_TAG_END)
    case _ => ("", "")
  }

  predicate Tagged(ft: FormattedText, i: nat)
    requires i < |ft.entities|
  {
    GetHtmlTags(ft, i) != ("", "")
  }

  // Escaping

  predicate Reserved(c: char) { c == '<' || c == '>' || c == '&' || c == '"' }

  function EscapeOf(c: char): string
  {
    if c == '<' then "&lt;"
    else if c == '>' then "&gt;"
    else if c == '&' then "&amp;"
    else if c == '"' then "&quot;"
    else [c]
  }

  /** QString::toHtmlEscaped. */
  function HtmlEscaped(s: string): string
  {
    if s == "" then "" else EscapeOf(s[0]) + HtmlEscaped(s[1..])
  }

  predicate CrlfAt(s: string, k: int)
  {
    0 <= k && k + 1 < |s| && s[k] == '\r' && s[k + 1] == '\n'
  }

  /** Replacing every match of \r?\n. */
  function BreaksReplaced(s: string): string
  {
    if s == "" then ""
    else if CrlfAt(s, 0) then "<br>" + BreaksReplaced(s[2..])
    else if s[0] == '\n' then "<br>" + BreaksReplaced(s[1..])
    else [s[0]] + BreaksReplaced(s[1..])
  }

  function GetPlainEscaped(s: string): string
  {
    BreaksReplaced(HtmlEscaped(s))
  }

  /** One edit for every occurrence of a character, in order. */
  function CharEdits(s: string, c: char, replacement: string, from: nat): (es: seq<Edit<char>>)
    ensures forall k :: 0 <= k < |es| ==> es[k].length >= 0
    decreases |s| - from
  {
    if from >= |s| then []
    else (if s[from] == c then [Edit(from, 1, replacement)] else []) + CharEdits(s, c, replacement, from + 1)
  }

  /** One edit for every match of \r?\n, in order. */
  function BreakEdits(s: string, from: nat): (es: seq<Edit<char>>)
    ensures forall k :: 0 <= k < |es| ==> es[k].length >= 0
    decreases |s| - from
  {
    if from >= |s| then []
    else if CrlfAt(s, from) then [Edit(from, 2, "<br>")] + BreakEdits(s, from + 2)
    else (if s[from] == '\n' then [Edit(from, 1, "<br>")] else []) + BreakEdits(s, from + 1)
  }

  /** All escapes, in the order in which they are added. */
  function EscapeEdits(s: string, from: nat): (es: seq<Edit<char>>)
    ensures forall k :: 0 <= k < |es| ==> es[k].length >= 0
  {
    CharEdits(s, '<', "&lt;", from) + CharEdits(s, '>', "&gt;", from) + CharEdits(s, '&', "&amp;", from)
    + CharEdits(s, '"', "&quot;", from) + BreakEdits(s, from)
  }

  /** The edits of one entity: its replacement, then its two tags. */
  function EntityEdits(ft: FormattedText, i: nat): (es: seq<Edit<char>>)
    requires i < |ft.entities| && ft.entities[i].length >= 0
    ensures forall k :: 0 <= k < |es| ==> es[k].length >= 0
  {
    var e := ft.entities[i];
    var replacement := GetReplacement(ft, e);
    var tags := GetHtmlTags(ft, i);
    (if replacement != "" then [Edit(e.offset, e.length, replacement)] else [])
    + (if tags == ("", "") then [] else [Edit(e.offset, 0, tags.0), Edit(e.End(), 0, tags.1)])
  }

  ghost predicate LengthsOk(ft: FormattedText)
  {
    forall i :: 0 <= i < |ft.entities| ==> ft.entities[i].length >= 0
  }

  ghost function TagEdits(ft: FormattedText, n: nat): (es: seq<Edit<char>>)
    requires n <= |ft.entities| && LengthsOk(ft)
    ensures forall k :: 0 <= k < |es| ==> es[k].length >= 0
  {
    if n == 0 then [] else TagEdits(ft, n - 1) + EntityEdits(ft, n - 1)
  }

  ghost function AllEdits(ft: FormattedText, escape: bool): (es: seq<Edit<char>>)
    requires LengthsOk(ft)
    ensures forall k :: 0 <= k < |es| ==> es[k].length >= 0
  {
    TagEdits(ft, |ft.entities|) + (if escape then EscapeEdits(ft.plainText, 0) else [])
  }

  function IndexOf(s: string, c: char, from: nat): (i: int)
    ensures i == -1 || (from <= i < |s| && s[i] == c)
    decreases |s| - from
  {
    if from >= |s| then -1 else if s[from] == c then from else IndexOf(s, c, from + 1)
  }

  /** The edits still to come once the next occurrence has been found at `i`, or -1 if there is none. */
  ghost function RestFrom(s: string, c: char, replacement: string, i: int): seq<Edit<char>> {
    if i < 0 then [] else [Edit(i, 1, replacement)] + CharEdits(s, c, replacement, i + 1)
  }

  lemma {:induction false} NoneBeforeIndex(s: string, c: char, replacement: string, from: nat)
    ensures CharEdits(s, c, replacement, from) == RestFrom(s, c, replacement, IndexOf(s, c, from))
    decreases |s| - from
  {
    if from >= |s| || s[from] == c {
    } else {
      NoneBeforeIndex(s, c, replacement, from + 1);
    }
  }

  method AddInsertionsToForChar(insertions: seq<Edit<char>>, plainText: string, original: char, replacement: string)
    returns (added: seq<Edit<char>>)
    ensures added == insertions + CharEdits(plainText, original, replacement, 0)
  {
    added := insertions;
    ghost var goal := insertions + CharEdits(plainText, original, replacement, 0);
    ghost var rest := CharEdits(plainText, original, replacement, 0);
    var nextIndex := IndexOf(plainText, original, 0);
    NoneBeforeIndex(plainText, original, replacement, 0);
    while nextIndex > -1
      invariant -1 <= nextIndex < |plainText|
      invariant added + rest == goal
      invariant rest == RestFrom(plainText, original, replacement, nextIndex)
      decreases if nextIndex == -1 then 0 else |plainText| - nextIndex
    {
      ghost var tail := CharEdits(plainText, original, replacement, nextIndex + 1);
      assert added + ([Edit(nextIndex, 1, replacement)] + tail) == (added + [Edit(nextIndex, 1, replacement)]) + tail;
      NoneBeforeIndex(plainText, original, replacement, nextIndex + 1);
      added := added + [Edit(nextIndex, 1, replacement)];
      rest := tail;
      nextIndex := IndexOf(plainText, original, nextIndex + 1);
    }
    assert added + [] == added;
  }

  method AddInsertionsToForBreaks(insertions: seq<Edit<char>>, plainText: string)
    returns (added: seq<Edit<char>>)
    ensures added == insertions + BreakEdits(plainText, 0)
  {
    added := insertions;
    var i := 0;
    while i < |plainText|
      invariant 0 <= i <= |plainText|
      invariant added + BreakEdits(plainText, i) == insertions + BreakEdits(plainText, 0)
    {
      if CrlfAt(plainText, i) {
        added := added + [Edit(i, 2, "<br>")];
        i := i + 2;
      } else {
        if plainText[i] == '\n' {
          added := added + [Edit(i, 1, "<br>")];
        }
        i := i + 1;
      }
    }
    assert added + [] == added;
  }

  /** std::sort with Insertion::sort: callers know the order, not how ties are broken. */
  method SortInsertions(es: seq<Edit<char>>) returns (sorted: seq<Edit<char>>)
    ensures multiset(sorted) == multiset(es) && Sorted(sorted)
  {
    sorted := [];
    assert es[..0] == [];
    for i := 0 to |es|
      invariant multiset(sorted) == multiset(es[..i]) && Sorted(sorted)
    {
      assert es[..i + 1] == es[..i] + [es[i]];
      sorted := PlaceInsertion(sorted, es[i]);
    }
    assert es[..|es|] == es;
  }

  method PlaceInsertion(es: seq<Edit<char>>, e: Edit<char>) returns (placed: seq<Edit<char>>)
    requires Sorted(es)
    ensures multiset(placed) == multiset(es) + multiset{e} && Sorted(placed)
  {
    var j := |es|;
    while j > 0 && SortsBefore(e, es[j - 1])
      invariant 0 <= j <= |es|
      invariant forall k :: j <= k < |es| ==> SortsBefore(e, es[k])
    {
      j := j - 1;
    }
    PlacedSorted(SortsBefore, es, j, e);
    placed := es[..j] + [e] + es[j..];
  }

  /** Parsing: collect the edits, sort them, carry them out one by one on the text shifted by the prefix. */
  method Parse(ft: FormattedText, escape: bool) returns (result: string, sorted: seq<Edit<char>>)
    requires LengthsOk(ft)
    ensures TagEdits(ft, |ft.entities|) == [] ==>
              result == if escape then GetPlainEscaped(ft.plainText) else ft.plainText
    ensures TagEdits(ft, |ft.entities|) != [] ==>
              && multiset(sorted) == multiset(AllEdits(ft, escape)) && Sorted(sorted)
              && (forall k :: 0 <= k < |sorted| ==> sorted[k].length >= 0)
              && result == ApplyAll(ft.plainText, sorted, ft.prefixOffset)
  {
    sorted := [];
    var insertions: seq<Edit<char>> := [];
    for i := 0 to |ft.entities|
      invariant insertions == TagEdits(ft, i)
    {
      insertions := insertions + EntityEdits(ft, i);
    }
    if insertions == [] {
      result := if escape then GetPlainEscaped(ft.plainText) else ft.plainText;
      return;
    }
    if escape {
      ghost var tags := insertions;
      insertions := AddInsertionsToForChar(insertions, ft.plainText, '<', "&lt;");
      insertions := AddInsertionsToForChar(insertions, ft.plainText, '>', "&gt;");
      insertions := AddInsertionsToForChar(insertions, ft.plainText, '&', "&amp;");
      insertions := AddInsertionsToForChar(insertions, ft.plainText, '"', "&quot;");
      insertions := AddInsertionsToForBreaks(insertions, ft.plainText);
      EscapesTogether(ft.plainText, tags);
      assert insertions == AllEdits(ft, escape);
    } else {
      assert insertions + [] == insertions;
    }
    sorted := SortInsertions(insertions);
    forall k | 0 <= k < |sorted| ensures sorted[k].length >= 0 {
      assert sorted[k] in multiset(sorted);
      assert sorted[k] in insertions;
    }
    result := ApplyInOrder(ft.plainText, sorted, ft.prefixOffset);
  }

  lemma {:induction false} EscapesTogether(s: string, tags: seq<Edit<char>>)
    ensures tags + CharEdits(s, '<', "&lt;", 0) + CharEdits(s, '>', "&gt;", 0) + CharEdits(s, '&', "&amp;", 0)
            + CharEdits(s, '"', "&quot;", 0) + BreakEdits(s, 0)
         == tags + EscapeEdits(s, 0)
  {
  }

  method ApplyInOrder(plainText: string, sorted: seq<Edit<char>>, prefixOffset: int) returns (result: string)
    requires forall k :: 0 <= k < |sorted| ==> sorted[k].length >= 0
    ensures result == ApplyAll(plainText, sorted, prefixOffset)
  {
    result := plainText;
    assert sorted[0..] == sorted;
    for i := 0 to |sorted|
      invariant ApplyAll(result, sorted[i..], prefixOffset) == ApplyAll(plainText, sorted, prefixOffset)
    {
      assert sorted[i..][0] == sorted[i] && sorted[i..][1..] == sorted[i + 1..];
      result := Splice(result, prefixOffset + sorted[i].offset, sorted[i].length, sorted[i].text);
    }
  }

  /** Without a prefix, edits that are pairwise apart amount to one simultaneous substitution. */
  lemma {:induction false} ParseSubstitutes(ft: FormattedText, escape: bool, sorted: seq<Edit<char>>)
    requires LengthsOk(ft) && PairwiseApart(AllEdits(ft, escape)) && InText(AllEdits(ft, escape), |ft.plainText|)
    requires multiset(sorted) == multiset(AllEdits(ft, escape)) && Sorted(sorted)
    ensures forall k :: 0 <= k < |sorted| ==> sorted[k].length >= 0
    ensures InSequence(Reverse(sorted)) && Ordered(Reverse(sorted), 0, |ft.plainText|)
    ensures ApplyAll(ft.plainText, sorted, 0) == Substitute(ft.plainText, Reverse(sorted), 0, |ft.plainText|)
  {
    SortedEditsSubstitute(ft.plainText, AllEdits(ft, escape), sorted);
  }
}
