/** What escaped text reads like. */
module Escaping {
  import opened FormattedTexts
  import opened Nesting

  /** What a reader of the escapes sees first, and how long it is. */
  function First(t: string): (string, nat)
    requires t != ""
  {
    if "<br>" <= t then ("\n", 4)
    else if "&lt;" <= t then ("<", 4)
    else if "&gt;" <= t then (">", 4)
    else if "&amp;" <= t then ("&", 5)
    else if "&quot;" <= t then ("\"", 6)
    else (t[..1], 1)
  }

  /** Rich text without tags, as its reader sees it. */
  function ReadBack(t: string): string
  {
    if t == "" then "" else First(t).0 + ReadBack(t[First(t).1..])
  }

  /** The text with every line break of two characters as one. */
  function OneCharBreaks(s: string): string
  {
    if s == "" then "" else if CrlfAt(s, 0) then "\n" + OneCharBreaks(s[2..]) else [s[0]] + OneCharBreaks(s[1..])
  }

  lemma {:induction false} ReadFirst(escape: string, c: char, rest: string)
    requires (escape, c) in {("<br>", '\n'), ("&lt;", '<'), ("&gt;", '>'), ("&amp;", '&'), ("&quot;", '"')}
    ensures ReadBack(escape + rest) == [c] + ReadBack(rest)
  {
    var t := escape + rest;
    assert t[..|escape|] == escape && t[|escape|..] == rest;
    assert escape <= t;
    assert t[0] == escape[0] && t[1] == escape[1];
  }

  lemma {:induction false} ReadOther(c: char, rest: string)
    requires c != '<' && c != '&'
    ensures ReadBack([c] + rest) == [c] + ReadBack(rest)
  {
    var t := [c] + rest;
    assert t[..1] == [c] && t[1..] == rest && t[0] == c;
  }

  /** Escaping loses nothing but the difference between the two kinds of line break. */
  lemma {:induction false} EscapedReadsBack(s: string)
    ensures ReadBack(GetPlainEscaped(s)) == OneCharBreaks(s)
  {
    if s == "" {
    } else {
      assert s[0..] == s;
      if CrlfAt(s, 0) {
        BreakPair(s, 0);
        ReadFirst("<br>", '\n', GetPlainEscaped(s[2..]));
        EscapedReadsBack(s[2..]);
      } else {
        EscapedReadsBack(s[1..]);
        var rest := GetPlainEscaped(s[1..]);
        if s[0] == '\n' {
          LoneBreak(s, 0);
          ReadFirst("<br>", '\n', rest);
        } else if Reserved(s[0]) {
          ReservedChar(s, 0);
          ReadFirst(EscapeOf(s[0]), s[0], rest);
        } else {
          LoneChar(s, 0);
          ReadOther(s[0], rest);
        }
      }
    }
  }
}
