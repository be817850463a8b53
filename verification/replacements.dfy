/** Turning marked-up input into plain text with entities: replacements carried out from left to right
    with a running offset correction (src/utilities.cpp:83-142). */
module Replacements {
  import opened Lists
  import opened Substitution

  datatype Replacement = Replacement(startIndex: int, length: int, kind: string, plainText: string)
  {
    function AsEdit(): Edit<char> { Edit(startIndex, length, plainText) }
  }

  datatype EntityRecord = EntityRecord(offset: int, length: int, kind: string)

  function Edits(rs: seq<Replacement>): (es: seq<Edit<char>>)
    ensures |es| == |rs| && forall k :: 0 <= k < |rs| ==> es[k] == rs[k].AsEdit()
  {
    seq(|rs|, k requires 0 <= k < |rs| => rs[k].AsEdit())
  }

  predicate StartsBefore(a: Replacement, b: Replacement)
  {
    a.startIndex < b.startIndex
  }

  ghost predicate SortedByStart(rs: seq<Replacement>)
  {
    SortedBy(StartsBefore, rs)
  }

  /** std::sort with `replacementsSorter`: callers know the order, not how ties are broken. */
  method SortReplacements(rs: seq<Replacement>) returns (sorted: seq<Replacement>)
    ensures multiset(sorted) == multiset(rs) && SortedByStart(sorted)
  {
    sorted := [];
    assert rs[..0] == [];
    for i := 0 to |rs|
      invariant multiset(sorted) == multiset(rs[..i]) && SortedByStart(sorted)
    {
      assert rs[..i + 1] == rs[..i] + [rs[i]];
      sorted := PlaceReplacement(sorted, rs[i]);
    }
    assert rs[..|rs|] == rs;
  }

  method PlaceReplacement(rs: seq<Replacement>, r: Replacement) returns (placed: seq<Replacement>)
    requires SortedByStart(rs)
    ensures multiset(placed) == multiset(rs) + multiset{r} && SortedByStart(placed)
  {
    var j := |rs|;
    while j > 0 && StartsBefore(r, rs[j - 1])
      invariant 0 <= j <= |rs|
      invariant forall k :: j <= k < |rs| ==> StartsBefore(r, rs[k])
    {
      j := j - 1;
    }
    PlacedSorted(StartsBefore, rs, j, r);
    placed := rs[..j] + [r] + rs[j..];
  }

  /** Insertions may be anywhere between the other replacements. */
  predicate NoOverlap(a: Replacement, b: Replacement)
  {
    Clear(a.AsEdit(), b.AsEdit())
  }

  /** No two replacements overlap, and all lie in the text. */
  ghost predicate ClearIn(rs: seq<Replacement>, n: int)
  {
    PairwiseBy(NoOverlap, rs) && InText(Edits(rs), n)
  }

  /** No insertion stands behind a replacement of some text at the same place. */
  ghost predicate InsertionsFirst(sorted: seq<Replacement>)
  {
    forall i, j :: 0 <= i < j < |sorted| && sorted[i].startIndex == sorted[j].startIndex && sorted[j].length == 0 ==>
      sorted[i].length == 0
  }

  lemma {:induction false} ClearPermuted(rs: seq<Replacement>, sorted: seq<Replacement>, n: int)
    requires 0 <= n && ClearIn(rs, n) && multiset(sorted) == multiset(rs)
    ensures ClearIn(sorted, n)
  {
    PairwisePermuted(NoOverlap, rs, sorted);
    SamePermutation(rs, sorted);
    forall k | 0 <= k < |sorted|
      ensures 0 <= Edits(sorted)[k].offset && 0 <= Edits(sorted)[k].length && Edits(sorted)[k].End() <= n
    {
      var i :| 0 <= i < |rs| && rs[i] == sorted[k];
      assert Edits(rs)[i] == Edits(sorted)[k];
    }
  }

  /** Replacements in the order of their starts come one after another exactly if the ties are broken that way. */
  lemma {:induction false} TiesExact(sorted: seq<Replacement>, n: int)
    requires 0 <= n && ClearIn(sorted, n) && SortedByStart(sorted)
    ensures OneAfterAnother(Edits(sorted)) <==> InsertionsFirst(sorted)
    ensures OneAfterAnother(Edits(sorted)) ==> Ordered(Edits(sorted), 0, n)
  {
    var es := Edits(sorted);
    if InsertionsFirst(sorted) {
      forall i, j | 0 <= i < j < |es| ensures es[i].End() <= es[j].offset {
        assert NoOverlap(sorted[i], sorted[j]) && !StartsBefore(sorted[j], sorted[i]);
      }
    }
    if OneAfterAnother(es) {
      forall i, j | 0 <= i < j < |sorted| && sorted[i].startIndex == sorted[j].startIndex && sorted[j].length == 0
        ensures sorted[i].length == 0
      {
        assert es[i].End() <= es[j].offset && 0 <= es[i].length;
      }
      OneAfterAnotherIsOrdered(es, 0, n);
    }
  }

  /** The entity cuts exactly its replacement text out of `text`. */
  ghost predicate CutsOut(text: string, e: EntityRecord, r: Replacement)
  {
    0 <= e.offset && e.length == |r.plainText| && e.offset + e.length <= |text|
    && text[e.offset..e.offset + e.length] == r.plainText && e.kind == r.kind
  }

  /** Where the part already rewritten ends in the original text. */
  function DoneUpTo(rs: seq<Replacement>, i: nat): int
    requires i <= |rs|
  {
    if i == 0 then 0 else rs[i - 1].startIndex + rs[i - 1].length
  }

  /** One more replacement in the simultaneous substitution. */
  lemma {:induction false} SubstituteNext(original: string, sorted: seq<Replacement>, i: nat)
    requires i < |sorted| && Ordered(Edits(sorted), 0, |original|) && OneAfterAnother(Edits(sorted))
    requires var done := DoneUpTo(sorted, i); 0 <= done <= |original| && Ordered(Edits(sorted[..i]), 0, done)
    ensures var done, r, done' := DoneUpTo(sorted, i), sorted[i], DoneUpTo(sorted, i + 1);
            && done <= r.startIndex <= done' <= |original| && Ordered(Edits(sorted[..i + 1]), 0, done')
            && Substitute(original, Edits(sorted[..i + 1]), 0, done')
               == Substitute(original, Edits(sorted[..i]), 0, done) + original[done..r.startIndex] + r.plainText
  {
    NextInText(sorted, i, |original|);
    assert Edits(sorted[..i + 1]) == Edits(sorted[..i]) + [sorted[i].AsEdit()];
    SubstituteSnoc(original, Edits(sorted[..i]), sorted[i].AsEdit(), 0, DoneUpTo(sorted, i));
  }

  lemma {:induction false} NextInText(sorted: seq<Replacement>, i: nat, n: int)
    requires i < |sorted| && Ordered(Edits(sorted), 0, n) && OneAfterAnother(Edits(sorted))
    ensures DoneUpTo(sorted, i) <= sorted[i].startIndex && 0 <= sorted[i].length
    ensures sorted[i].startIndex + sorted[i].length <= n
  {
    var es := Edits(sorted);
    OrderedLengths(es, 0, n);
    assert es[i] == sorted[i].AsEdit();
    assert i > 0 ==> es[i - 1].End() <= es[i].offset;
  }

  lemma {:induction false} SpliceTail(prefix: string, original: string, done: int, r: Replacement)
    requires 0 <= done <= r.startIndex && 0 <= r.length && r.startIndex + r.length <= |original|
    ensures var before := prefix + original[done..r.startIndex];
            Splice(prefix + original[done..], |before|, r.length, r.plainText)
            == before + r.plainText + original[r.startIndex + r.length..]
  {
    var before := prefix + original[done..r.startIndex];
    var text := prefix + original[done..];
    assert original[done..] == original[done..r.startIndex] + original[r.startIndex..];
    assert text == before + original[r.startIndex..];
    assert text[..|before|] == before;
    assert text[|before| + r.length..] == original[r.startIndex + r.length..];
  }

  lemma {:induction false} CutsOutLater(prefix: string, more: string, e: EntityRecord, r: Replacement)
    requires CutsOut(prefix, e, r)
    ensures CutsOut(prefix + more, e, r)
  {
    assert (prefix + more)[e.offset..e.offset + e.length] == prefix[e.offset..e.offset + e.length];
  }

  /** For replacements that do not overlap, the entities come one after another if and only if the sort has put
      insertions first where starts are equal. Then the text is the simultaneous replacement of all ranges, and every
      entity cuts its replacement text out of the final text, not only out of the text of the moment it was recorded. */
  method FormattedTextEntitiesFromReplacements(replacements: seq<Replacement>, originalText: string)
    returns (entities: seq<EntityRecord>, text: string, sorted: seq<Replacement>)
    requires forall k :: 0 <= k < |replacements| ==> replacements[k].length >= 0
    ensures multiset(sorted) == multiset(replacements) && SortedByStart(sorted)
    ensures |entities| == |sorted| == |replacements| && forall k :: 0 <= k < |sorted| ==> sorted[k].length >= 0
    ensures var s := After(originalText, sorted, |sorted|); text == s.text && entities == s.entities
    ensures ClearIn(replacements, |originalText|) ==>
              && (Followed(entities) <==> InsertionsFirst(sorted))
              && (InsertionsFirst(sorted) ==>
                    && Ordered(Edits(sorted), 0, |originalText|)
                    && text == Substitute(originalText, Edits(sorted), 0, |originalText|)
                    && forall k :: 0 <= k < |sorted| ==> CutsOut(text, entities[k], sorted[k]))
  {
    entities, text, sorted := [], originalText, replacements;
    if replacements == [] {
      assert originalText[0..] == originalText;
    } else {
      sorted := SortReplacements(replacements);
      SamePermutation(replacements, sorted);
      entities, text := Rewrite(sorted, originalText);
      if ClearIn(replacements, |originalText|) {
        ClearPermuted(replacements, sorted, |originalText|);
        TiesExact(sorted, |originalText|);
        FollowedExact(originalText, sorted);
        if InsertionsFirst(sorted) {
          RewrittenIsSubstitution(originalText, sorted);
        }
      }
    }
  }

  lemma {:induction false} SamePermutation(rs: seq<Replacement>, sorted: seq<Replacement>)
    requires multiset(sorted) == multiset(rs)
    ensures |sorted| == |rs| && forall k :: 0 <= k < |sorted| ==> sorted[k] in rs
  {
    assert |multiset(sorted)| == |multiset(rs)|;
    forall k | 0 <= k < |sorted| ensures sorted[k] in rs {
      assert sorted[k] in multiset(sorted);
    }
  }

  /** The loop's state: the text, how much shorter it has become, and the entities; `done` is the settled part of
      the text. */
  datatype State = State(text: string, offsetCorrection: int, entities: seq<EntityRecord>, done: string)

  function Entity(r: Replacement, offsetCorrection: int): EntityRecord {
    EntityRecord(r.startIndex - offsetCorrection, |r.plainText|, r.kind)
  }

  /** The state after one more replacement. */
  function Next(original: string, rs: seq<Replacement>, i: nat, s: State): State
    requires i < |rs| && rs[i].length >= 0
  {
    var r := rs[i];
    State(Splice(s.text, r.startIndex - s.offsetCorrection, r.length, r.plainText),
          s.offsetCorrection + r.length - |r.plainText|,
          s.entities + [Entity(r, s.offsetCorrection)],
          s.done + (Gap(original, rs, i) + r.plainText))
  }

  /** The state after the first i replacements, whatever they are. */
  function After(original: string, rs: seq<Replacement>, i: nat): State
    requires i <= |rs| && forall k :: 0 <= k < |rs| ==> rs[k].length >= 0
  {
    if i == 0 then State(original, 0, [], "") else Next(original, rs, i - 1, After(original, rs, i - 1))
  }

  /** What stands between the replacements number i - 1 and i. */
  function Gap(original: string, rs: seq<Replacement>, i: nat): string
    requires i < |rs|
  {
    if 0 <= DoneUpTo(rs, i) <= rs[i].startIndex <= |original| then original[DoneUpTo(rs, i)..rs[i].startIndex] else ""
  }

  /** Each entity ends before the next one begins. */
  ghost predicate Followed(entities: seq<EntityRecord>)
  {
    forall k :: 0 <= k < |entities| - 1 ==> entities[k].offset + entities[k].length <= entities[k + 1].offset
  }

  lemma {:induction false} EntityAt(original: string, rs: seq<Replacement>, i: nat, k: nat)
    requires k < i <= |rs| && forall m :: 0 <= m < |rs| ==> rs[m].length >= 0
    ensures var s := After(original, rs, i);
            |s.entities| == i && s.entities[k] == Entity(rs[k], After(original, rs, k).offsetCorrection)
    decreases i
  {
    if k < i - 1 {
      EntityAt(original, rs, i - 1, k);
    } else if i > 1 {
      EntityAt(original, rs, i - 1, 0);
    }
  }

  lemma {:induction false} NextIsEnough<T>(es: seq<Edit<T>>, i: nat, j: nat)
    requires i < j < |es| && forall k :: 0 <= k < |es| ==> 0 <= es[k].length
    requires forall k :: 0 <= k < |es| - 1 ==> es[k].End() <= es[k + 1].offset
    ensures es[i].End() <= es[j].offset
    decreases j
  {
    if i < j - 1 {
      NextIsEnough(es, i, j - 1);
    }
  }

  /** Whatever is replaced, the distance between two entities is that between the two replacements. */
  lemma {:induction false} SameDistance(original: string, rs: seq<Replacement>, k: nat)
    requires k + 1 < |rs| && forall m :: 0 <= m < |rs| ==> rs[m].length >= 0
    ensures var entities := After(original, rs, |rs|).entities;
            && |entities| == |rs|
            && entities[k + 1].offset - (entities[k].offset + entities[k].length)
               == rs[k + 1].startIndex - (rs[k].startIndex + rs[k].length)
  {
    EntityAt(original, rs, |rs|, k);
    EntityAt(original, rs, |rs|, k + 1);
  }

  /** So the entities come one after another if and only if the replacements do. */
  lemma {:induction false} FollowedExact(original: string, rs: seq<Replacement>)
    requires forall k :: 0 <= k < |rs| ==> rs[k].length >= 0
    ensures Followed(After(original, rs, |rs|).entities) <==> OneAfterAnother(Edits(rs))
  {
    var entities := After(original, rs, |rs|).entities;
    if rs == [] {
    } else {
      EntityAt(original, rs, |rs|, 0);
      forall k | 0 <= k < |rs| - 1
        ensures entities[k + 1].offset - (entities[k].offset + entities[k].length)
                == rs[k + 1].startIndex - (rs[k].startIndex + rs[k].length)
      {
        SameDistance(original, rs, k);
      }
      FollowedMeans(entities, rs);
    }
  }

  lemma {:induction false} FollowedMeans(entities: seq<EntityRecord>, rs: seq<Replacement>)
    requires |entities| == |rs| && forall k :: 0 <= k < |rs| ==> rs[k].length >= 0
    requires forall k :: 0 <= k < |rs| - 1 ==>
               entities[k + 1].offset - (entities[k].offset + entities[k].length)
               == rs[k + 1].startIndex - (rs[k].startIndex + rs[k].length)
    ensures Followed(entities) <==> OneAfterAnother(Edits(rs))
  {
    var es := Edits(rs);
    if Followed(entities) {
      forall k | 0 <= k < |es| - 1 ensures es[k].End() <= es[k + 1].offset {
        assert entities[k].offset + entities[k].length <= entities[k + 1].offset;
      }
      forall i, j | 0 <= i < j < |es| ensures es[i].End() <= es[j].offset {
        NextIsEnough(es, i, j);
      }
    }
    if OneAfterAnother(es) {
      forall k | 0 <= k < |entities| - 1
        ensures entities[k].offset + entities[k].length <= entities[k + 1].offset
      {
        assert es[k].End() <= es[k + 1].offset;
      }
    }
  }

  /** The loop over the sorted replacements. */
  method Rewrite(sorted: seq<Replacement>, originalText: string) returns (entities: seq<EntityRecord>, text: string)
    requires forall k :: 0 <= k < |sorted| ==> sorted[k].length >= 0
    ensures |entities| == |sorted|
    ensures var s := After(originalText, sorted, |sorted|); text == s.text && entities == s.entities
  {
    entities, text := [], originalText;
    var offsetCorrection := 0;
    for i := 0 to |sorted|
      invariant |entities| == i
      invariant var s := After(originalText, sorted, i);
                text == s.text && entities == s.entities && offsetCorrection == s.offsetCorrection
    {
      var replacement := sorted[i];
      text := Splice(text, replacement.startIndex - offsetCorrection, replacement.length, replacement.plainText);
      entities := entities + [Entity(replacement, offsetCorrection)];
      offsetCorrection := offsetCorrection + replacement.length - |replacement.plainText|;
    }
  }

  /** Replacements in sequence, carried out in order, are substituted all at once, and every recorded entity cuts its
      replacement out of the result. */
  lemma {:induction false} RewrittenIsSubstitution(original: string, sorted: seq<Replacement>)
    requires OneAfterAnother(Edits(sorted)) && Ordered(Edits(sorted), 0, |original|)
    requires forall k :: 0 <= k < |sorted| ==> sorted[k].length >= 0
    ensures var s := After(original, sorted, |sorted|);
            s.text == Substitute(original, Edits(sorted), 0, |original|) && AllCutOut(s.text, s.entities, sorted)
  {
    var s := After(original, sorted, |sorted|);
    ProgressUpTo(original, sorted, |sorted|);
    FinishLeftToRight(original, sorted, s);
    AllCutOutLater(s.done, s.text[|s.done|..], s.entities, sorted);
  }

  lemma {:induction false} ProgressUpTo(original: string, sorted: seq<Replacement>, i: nat)
    requires i <= |sorted| && OneAfterAnother(Edits(sorted)) && Ordered(Edits(sorted), 0, |original|)
    requires forall k :: 0 <= k < |sorted| ==> sorted[k].length >= 0
    ensures Progress(original, sorted, i, After(original, sorted, i))
    ensures CutSoFar(sorted, i, After(original, sorted, i))
  {
    if i == 0 {
      ProgressStart(original, sorted);
    } else {
      ProgressUpTo(original, sorted, i - 1);
      var s := After(original, sorted, i - 1);
      ProgressStep(original, sorted, i - 1, s);
      CutHere(original, sorted, i - 1, s);
      CutStep(original, sorted, i - 1, s);
    }
  }

  /** Every entity recorded so far cuts its replacement out of the settled part. */
  ghost predicate CutSoFar(sorted: seq<Replacement>, i: nat, s: State) {
    |s.entities| == i && AllCutOut(s.done, s.entities, sorted)
  }

  ghost predicate AllCutOut(text: string, entities: seq<EntityRecord>, sorted: seq<Replacement>)
  {
    |entities| <= |sorted| && forall k :: 0 <= k < |entities| ==> CutsOut(text, entities[k], sorted[k])
  }

  lemma {:induction false} ProgressStart(original: string, sorted: seq<Replacement>)
    ensures Progress(original, sorted, 0, State(original, 0, [], ""))
  {
  }

  lemma {:induction false} AllCutOutLater(prefix: string, more: string, entities: seq<EntityRecord>,
        sorted: seq<Replacement>)
    requires AllCutOut(prefix, entities, sorted)
    ensures AllCutOut(prefix + more, entities, sorted)
  {
    forall k | 0 <= k < |entities| ensures CutsOut(prefix + more, entities[k], sorted[k]) {
      CutsOutLater(prefix, more, entities[k], sorted[k]);
    }
  }

  lemma {:induction false} OneMoreCutOut(prefix: string, more: string, entities: seq<EntityRecord>,
        sorted: seq<Replacement>, entity: EntityRecord)
    requires AllCutOut(prefix, entities, sorted) && |entities| < |sorted|
    requires CutsOut(prefix + more, entity, sorted[|entities|])
    ensures AllCutOut(prefix + more, entities + [entity], sorted)
  {
    AllCutOutLater(prefix, more, entities, sorted);
  }

  /** One more replacement in the text of the moment. */
  lemma {:induction false} TextStep(original: string, done: int, r: Replacement, s: State, gap: string)
    requires 0 <= done <= r.startIndex && 0 <= r.length && r.startIndex + r.length <= |original|
    requires s.text == s.done + original[done..] && s.offsetCorrection == done - |s.done|
    requires gap == original[done..r.startIndex]
    ensures Splice(s.text, r.startIndex - s.offsetCorrection, r.length, r.plainText)
            == s.done + (gap + r.plainText) + original[r.startIndex + r.length..]
    ensures s.done + gap + r.plainText == s.done + (gap + r.plainText)
  {
    SpliceTail(s.done, original, done, r);
    assert s.done + gap + r.plainText == s.done + (gap + r.plainText);
  }

  lemma {:induction false} ProgressStep(original: string, sorted: seq<Replacement>, i: nat, s: State)
    requires i < |sorted| && OneAfterAnother(Edits(sorted)) && Ordered(Edits(sorted), 0, |original|)
    requires sorted[i].length >= 0 && Progress(original, sorted, i, s)
    ensures Progress(original, sorted, i + 1, Next(original, sorted, i, s))
  {
    SubstituteNext(original, sorted, i);
    NextText(original, DoneUpTo(sorted, i), sorted, i, s, Next(original, sorted, i, s));
  }

  lemma {:induction false} NextText(original: string, done: int, sorted: seq<Replacement>, i: nat, s: State, s': State)
    requires i < |sorted| && sorted[i].length >= 0 && s' == Next(original, sorted, i, s)
    requires done == DoneUpTo(sorted, i) && 0 <= done <= sorted[i].startIndex
    requires sorted[i].startIndex + sorted[i].length <= |original|
    requires s.text == s.done + original[done..] && s.offsetCorrection == done - |s.done|
    ensures var done' := DoneUpTo(sorted, i + 1);
            && s'.text == s'.done + original[done'..] && s'.offsetCorrection == done' - |s'.done|
            && s'.done == s.done + original[done..sorted[i].startIndex] + sorted[i].plainText
  {
    TextStep(original, done, sorted[i], s, Gap(original, sorted, i));
  }

  lemma {:induction false} CutHere(original: string, sorted: seq<Replacement>, i: nat, s: State)
    requires i < |sorted| && OneAfterAnother(Edits(sorted)) && Ordered(Edits(sorted), 0, |original|)
    requires sorted[i].length >= 0 && Progress(original, sorted, i, s)
    ensures CutsOut(Next(original, sorted, i, s).done, Entity(sorted[i], s.offsetCorrection), sorted[i])
  {
    var r, gap := sorted[i], Gap(original, sorted, i);
    NextInText(sorted, i, |original|);
    CutsAtEnd(s.done + gap, r);
    assert s.done + (gap + r.plainText) == (s.done + gap) + r.plainText;
  }

  lemma {:induction false} CutsAtEnd(before: string, r: Replacement)
    ensures CutsOut(before + r.plainText, EntityRecord(|before|, |r.plainText|, r.kind), r)
  {
    assert (before + r.plainText)[|before|..|before| + |r.plainText|] == r.plainText;
  }

  lemma {:induction false} CutStep(original: string, sorted: seq<Replacement>, i: nat, s: State)
    requires i < |sorted| && sorted[i].length >= 0 && CutSoFar(sorted, i, s)
    requires CutsOut(Next(original, sorted, i, s).done, Entity(sorted[i], s.offsetCorrection), sorted[i])
    ensures CutSoFar(sorted, i + 1, Next(original, sorted, i, s))
  {
    OneMoreCutOut(s.done, Gap(original, sorted, i) + sorted[i].plainText, s.entities, sorted,
                  Entity(sorted[i], s.offsetCorrection));
  }

  /** The rewritten part is the substitution so far; the correction is how much shorter it became. */
  ghost predicate Progress(original: string, sorted: seq<Replacement>, i: nat, s: State)
    requires i <= |sorted|
  {
    var done := DoneUpTo(sorted, i);
    && 0 <= done <= |original| && Ordered(Edits(sorted[..i]), 0, done)
    && s.done == Substitute(original, Edits(sorted[..i]), 0, done)
    && s.text == s.done + original[done..]
    && s.offsetCorrection == done - |s.done|
  }

  lemma {:induction false} FinishLeftToRight(original: string, sorted: seq<Replacement>, s: State)
    requires Ordered(Edits(sorted), 0, |original|) && Progress(original, sorted, |sorted|, s)
    ensures s.text == Substitute(original, Edits(sorted), 0, |original|) && s.text == s.done + s.text[|s.done|..]
  {
    assert sorted[..|sorted|] == sorted;
    SubstituteExtend(original, Edits(sorted), 0, DoneUpTo(sorted, |sorted|), |original|);
  }

  /** With equal starts the result depends on how the sort breaks the tie: an insertion that comes after the
      replacement at the same place lands inside its text. */
  lemma {:induction false} EqualStartsMisplace()
    ensures var insertion, replacement := Replacement(0, 0, "", "!"), Replacement(0, 1, "", "xyz");
            && SortedByStart([insertion, replacement]) && SortedByStart([replacement, insertion])
            && After("ab", [insertion, replacement], 2).text == "!xyzb"
            && After("ab", [replacement, insertion], 2).text == "xy!zb"
  {
    var insertion, replacement := Replacement(0, 0, "", "!"), Replacement(0, 1, "", "xyz");
    var a, b := [insertion, replacement], [replacement, insertion];
    assert Splice("ab", 0, 0, "!") == "!ab" && Splice("!ab", 1, 1, "xyz") == "!xyzb";
    assert Splice("ab", 0, 1, "xyz") == "xyzb" && Splice("xyzb", 2, 0, "!") == "xy!zb";
    assert After("ab", a, 0) == State("ab", 0, [], "") == After("ab", b, 0);
    assert After("ab", a, 1).text == "!ab" && After("ab", a, 1).offsetCorrection == -1;
    assert After("ab", b, 1).text == "xyzb" && After("ab", b, 1).offsetCorrection == -2;
  }
}
