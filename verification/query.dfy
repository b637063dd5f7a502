/** The GraphQL search query the collector sends: a fixed template whose
    placeholders are filled once from the search criteria, and whose `AFTER`
    slot is filled anew for every page. */
module Query {
  import opened Wrappers
  import opened Text
  import opened Timestamp
  import opened QueryText

  /** The template text with the slots holding `vs`, a value per entry of
      `Slots`, and the `AFTER` slot still in place. */
  function Layout(vs: seq<string>): seq<string>
    requires |vs| == |Slots|
  {
    [Head0, vs[0], Head1, vs[1], Head2, vs[2], Head3, vs[3], Head4, vs[4], Head5, AfterSlot, Concat(Fields)]
  }

  /** The query template, every placeholder in place. */
  function Template(): string
  {
    Concat(Layout(Slots))
  }

  /* ---------------------------------------------------------------------------
     Markers in the template
     ------------------------------------------------------------------------- */

  /** An unmarked text contains no marker. */
  lemma UnmarkedFree(s: string, p: string)
    requires Unmarked(s) && Marker(p)
    ensures Free(s, p)
  {
    if p == MinStarsSlot || p == PushedAfterSlot {
      FreeMissing(s, p, '_');
    } else if p == SinceSlot {
      if 'S' !in s { FreeMissing(s, p, 'S'); } else { FreeMissing(s, p, 'N'); }
    } else if p == UntilSlot {
      FreeMissing(s, p, 'U');
    } else if p == LanguageSlot {
      FreeMissing(s, p, 'G');
    } else if p == AfterSlot {
      if 'F' !in s { FreeMissing(s, p, 'F'); } else { FreeMissing(s, p, 'E'); }
    } else {
      if 'g' !in s { FreeMissing(s, p, 'g'); } else { FreeMissing(s, p, ':'); }
    }
  }

  /** A text made of the characters of a timestamp or of a decimal number is unmarked. */
  lemma StampUnmarked(s: string)
    requires forall i | 0 <= i < |s| :: StampChar(s[i])
    ensures Unmarked(s)
  {
  }

  /** A rendered integer is unmarked. */
  lemma NumberUnmarked(n: int)
    ensures Unmarked(IntToString(n))
  {
    StampUnmarked(IntToString(n));
  }

  /** Characters that occur in no marker. */
  predicate Plain(c: char)
  {
    Blank(c) || c == '=' || c == '.' || c == '"' || c == ')' || IsDigit(c)
  }

  lemma PlainOutside(c: char, p: string)
    requires Plain(c) && Marker(p)
    ensures c !in p
  {
  }

  /** The field selection starts with `)`. */
  lemma TailStart()
    ensures |Concat(Fields)| > 0 && Concat(Fields)[0] == ')'
  {
    ConcatCons(Field0, Fields[1..]);
    assert Fields == [Field0] + Fields[1..];
  }

  lemma FieldsFree(p: string)
    requires Marker(p)
    ensures forall k | 0 <= k < |Fields| :: Free(Fields[k], p)
  {
    forall k | 0 <= k < |Fields|
      ensures Free(Fields[k], p)
    {
      FieldFacts(k);
      UnmarkedFree(Fields[k], p);
    }
  }

  lemma FieldsJoinable(p: string)
    requires Marker(p)
    ensures Joinable(Fields, p)
  {
    forall k | 0 < k < |Fields|
      ensures Seam(Fields[k - 1], Fields[k], p)
    {
      FieldFacts(k - 1);
      PlainOutside(Fields[k - 1][|Fields[k - 1]| - 1], p);
    }
  }

  /** The field selection contains no marker. */
  lemma TailFree(p: string)
    requires Marker(p)
    ensures Free(Concat(Fields), p)
  {
    FieldsFree(p);
    FieldsJoinable(p);
    FreeConcat(Fields, p);
  }

  /** A later placeholder does not contain an earlier one. */
  lemma LaterSlotFree(i: nat, m: nat)
    requires i < m < |Slots|
    ensures Free(Slots[m], Slots[i])
  {
    var c := if i == 0 then 'M' else if i == 1 then 'C' else if i == 2 then 'I' else 'P';
    FreeMissing(Slots[m], Slots[i], c);
  }

  /** Neither the `AFTER` slot nor the language tag contains a placeholder. */
  lemma AfterSlotFree(p: string)
    requires p in Slots
    ensures Free(AfterSlot, p) && Free(LanguageTag, p)
  {
    FreeMissing(AfterSlot, p, p[0]);
    FreeMissing(LanguageTag, p, p[0]);
  }

  /** Every seam of the layout is one a marker cannot straddle, given that the
      one after the `created:` text is. */
  lemma LayoutJoinable(vs: seq<string>, p: string)
    requires |vs| == |Slots| && Marker(p)
    requires Seam(Head1, vs[1], p)
    ensures Joinable(Layout(vs), p)
  {
    var ps := Layout(vs);
    TailStart();
    assert Head0[|Head0| - 1] == '=' && Head1[0] == ' ' && Head2 == ".." && Head3[0] == ' ';
    assert Head3[|Head3| - 1] == '=' && Head4 == " " && Head5[0] == '"' && Head5[|Head5| - 1] == ' ';
    forall c | c in "=. \")"
      ensures c !in p
    {
      PlainOutside(c, p);
    }
    forall k | 0 < k < |ps|
      ensures Seam(ps[k - 1], ps[k], p)
    {
      assert k in {1, 2, 3, 4, 5, 6, 7, 8, 9, 10, 11, 12};
    }
  }

  /** The literal pieces of the layout contain no marker. */
  lemma LiteralsFree(p: string)
    requires Marker(p)
    ensures Free(Head0, p) && Free(Head1, p) && Free(Head2, p)
    ensures Free(Head3, p) && Free(Head4, p) && Free(Head5, p)
    ensures Free(Concat(Fields), p)
  {
    Head0Facts(); Head1Facts(); Head2Facts(); Head3Facts(); Head4Facts(); Head5Facts();
    UnmarkedFree(Head0, p);
    UnmarkedFree(Head1, p);
    UnmarkedFree(Head2, p);
    UnmarkedFree(Head3, p);
    UnmarkedFree(Head4, p);
    UnmarkedFree(Head5, p);
    TailFree(p);
  }

  /** The pieces of the layout other than the one at `skip` contain no
      marker `p`, given that the values other than the one at `skip` do not. */
  lemma LayoutFree(vs: seq<string>, skip: int, p: string)
    requires |vs| == |Slots| && Marker(p)
    requires forall m | 0 <= m < |vs| && 2 * m + 1 != skip :: Free(vs[m], p)
    requires skip == 11 || Free(AfterSlot, p)
    ensures forall k | 0 <= k < |Layout(vs)| && k != skip :: Free(Layout(vs)[k], p)
  {
    var ps := Layout(vs);
    LiteralsFree(p);
    forall k | 0 <= k < |ps| && k != skip
      ensures Free(ps[k], p)
    {
      if k % 2 == 1 && k < 11 {
        assert ps[k] == vs[(k - 1) / 2];
      } else {
        assert k in {0, 2, 4, 6, 8, 10, 11, 12};
      }
    }
  }

  /** Filling slot `i` of a layout whose other pieces do not contain its
      placeholder replaces exactly that slot. */
  lemma FillSlot(vs: seq<string>, i: nat, rep: string)
    requires |vs| == |Slots| && i < |Slots| && vs[i] == Slots[i]
    requires forall m | 0 <= m < |vs| && m != i :: Free(vs[m], Slots[i])
    requires Seam(Head1, vs[1], Slots[i])
    ensures ReplaceAll(Concat(Layout(vs)), Slots[i], rep) == Concat(Layout(vs[i := rep]))
  {
    var p := Slots[i];
    AfterSlotFree(p);
    LayoutJoinable(vs, p);
    LayoutFree(vs, 2 * i + 1, p);
    ReplaceSlot(Layout(vs), 2 * i + 1, p, rep);
    LayoutUpdate(vs, i, rep);
  }

  lemma LayoutUpdate(vs: seq<string>, i: nat, rep: string)
    requires |vs| == |Slots| && i < |Slots|
    ensures Layout(vs)[2 * i + 1 := rep] == Layout(vs[i := rep])
  {
  }

  /* ---------------------------------------------------------------------------
     Building the query of a collector
     ------------------------------------------------------------------------- */

  /** What a collector is created with, less the access token. */
  datatype Criteria = Criteria(
    since: DateTime,
    until: DateTime,
    pushedAfter: DateTime,
    minStars: int,
    minReleases: int,
    minWatchers: int,
    minIssues: int,
    language: Option<string>)

  /** `datetime` values only ever hold valid dates and times. */
  predicate ValidCriteria(c: Criteria)
  {
    Valid(c.since) && Valid(c.until) && Valid(c.pushedAfter)
  }

  /** `primary_language` is truthy: given, and not the empty string. */
  predicate LanguageGiven(c: Criteria)
  {
    c.language.Some? && c.language.value != ""
  }

  /** The text that takes the place of `LANGUAGE:LANGUAGE`. */
  function LanguageClause(c: Criteria): string
  {
    if LanguageGiven(c) then LanguageTag + c.language.value else ""
  }

  /** Replaces placeholders `i` and onwards, one after the other, by their values. */
  function FillSlots(q: string, vs: seq<string>, i: nat): string
    requires |vs| == |Slots| && i <= |Slots|
    decreases |Slots| - i
  {
    if i == |Slots| then q else FillSlots(ReplaceAll(q, Slots[i], vs[i]), vs, i + 1)
  }

  /** The query after the five placeholders are filled, in the collector's order. */
  function Build(c: Criteria): string
    requires ValidCriteria(c)
  {
    FillSlots(Template(), Values(c), 0)
  }

  /** The values the five placeholders are filled with. */
  function Values(c: Criteria): (vs: seq<string>)
    requires ValidCriteria(c)
    ensures |vs| == |Slots|
  {
    [IntToString(c.minStars), Format(c.since), Format(c.until), Format(c.pushedAfter), LanguageClause(c)]
  }

  /** Every value but the language clause is unmarked. */
  lemma ValuesUnmarked(c: Criteria)
    requires ValidCriteria(c)
    ensures forall m | 0 <= m < 4 :: Unmarked(Values(c)[m])
  {
    NumberUnmarked(c.minStars);
    StampUnmarked(Format(c.since));
    StampUnmarked(Format(c.until));
    StampUnmarked(Format(c.pushedAfter));
  }

  /** The layout after the first `i` placeholders are filled. */
  function Stage(c: Criteria, i: nat): (vs: seq<string>)
    requires ValidCriteria(c) && i <= |Slots|
    ensures |vs| == |Slots|
  {
    Values(c)[..i] + Slots[i..]
  }

  /** Updating entry `i` of a splice of `a` and `b` at `i` with `a[i]` moves the splice one on. */
  lemma SpliceStep<T>(a: seq<T>, b: seq<T>, i: nat)
    requires |a| == |b| && i < |a|
    ensures (a[..i] + b[i..])[i := a[i]] == a[..i + 1] + b[i + 1..]
  {
  }

  /** The seam after the `created:` text, which ends in a colon, is one no
      marker but the language placeholder and tag could straddle; once the
      creation bound is in place, it begins with a digit. */
  lemma StageSeam(c: Criteria, i: nat, p: string)
    requires ValidCriteria(c) && i <= |Slots| && Marker(p)
    requires i >= 2 || (p != LanguageSlot && p != LanguageTag)
    ensures Seam(Head1, Stage(c, i)[1], p)
  {
    assert Head1[|Head1| - 1] == ':';
    if i >= 2 {
      assert Stage(c, i)[1] == Format(c.since);
      PlainOutside(Format(c.since)[0], p);
    }
  }

  /** Filling placeholder `i` takes the layout from stage `i` to stage `i + 1`. */
  lemma FillStage(c: Criteria, i: nat)
    requires ValidCriteria(c) && i < |Slots|
    ensures ReplaceAll(Concat(Layout(Stage(c, i))), Slots[i], Values(c)[i]) == Concat(Layout(Stage(c, i + 1)))
  {
    var vs := Stage(c, i);
    var p := Slots[i];
    ValuesUnmarked(c);
    forall m | 0 <= m < |vs| && m != i
      ensures Free(vs[m], p)
    {
      if m < i {
        UnmarkedFree(vs[m], p);
      } else {
        LaterSlotFree(i, m);
      }
    }
    StageSeam(c, i, p);
    FillSlot(vs, i, Values(c)[i]);
    SpliceStep(Values(c), Slots, i);
  }

  /** Filling the placeholders from stage `i` on completes the layout. */
  lemma {:induction false} FillFrom(c: Criteria, i: nat)
    requires ValidCriteria(c) && i <= |Slots|
    ensures FillSlots(Concat(Layout(Stage(c, i))), Values(c), i) == Concat(Layout(Values(c)))
    decreases |Slots| - i
  {
    if i == |Slots| {
      assert Stage(c, i) == Values(c);
    } else {
      FillStage(c, i);
      FillFrom(c, i + 1);
    }
  }

  /** The built query is the template with each placeholder replaced by its
      value and nothing else changed: no value is rewritten by a later
      substitution, and no placeholder is formed across a seam. */
  lemma BuildShape(c: Criteria)
    requires ValidCriteria(c)
    ensures Build(c) == Concat(Layout(Values(c)))
  {
    assert Stage(c, 0) == Slots;
    FillFrom(c, 0);
  }

  /** A layout whose values contain no marker `p` contains none either. */
  lemma LayoutFreeAll(vs: seq<string>, p: string)
    requires |vs| == |Slots| && Marker(p)
    requires forall m | 0 <= m < |vs| :: Free(vs[m], p)
    requires Free(AfterSlot, p) && Seam(Head1, vs[1], p)
    ensures Free(Concat(Layout(vs)), p)
  {
    LayoutFree(vs, -1, p);
    LayoutJoinable(vs, p);
    FreeConcat(Layout(vs), p);
  }

  /** The filled query contains a marker other than `AFTER` only through the
      language clause. */
  lemma ValuesFree(c: Criteria, p: string)
    requires ValidCriteria(c) && Marker(p) && p != AfterSlot
    requires Free(LanguageClause(c), p)
    ensures Free(Concat(Layout(Values(c))), p)
  {
    var v := Values(c);
    ValuesUnmarked(c);
    forall m | 0 <= m < |v|
      ensures Free(v[m], p)
    {
      if m < 4 {
        UnmarkedFree(v[m], p);
      }
    }
    assert Stage(c, 5) == v;
    StageSeam(c, 5, p);
    if p == LanguageTag {
      FreeMissing(AfterSlot, p, 'l');
    } else {
      AfterSlotFree(p);
    }
    LayoutFreeAll(v, p);
  }

  /** The language clause contains a marker only if the language does. */
  lemma ClauseFree(c: Criteria, p: string)
    requires Marker(p) && p != LanguageTag
    requires LanguageGiven(c) ==> Free(c.language.value, p)
    ensures Free(LanguageClause(c), p)
  {
    if LanguageGiven(c) {
      var lang := c.language.value;
      FreeMissing("language", p, p[0]);
      FreeCons(':', lang, p);
      assert "language"[7] == 'e';
      FreeAppend("language", [':'] + lang, p);
      assert LanguageClause(c) == "language" + ([':'] + lang);
    }
  }

  /** After construction no placeholder is left in the query, as long as the
      language given contains none. */
  lemma BuildFree(c: Criteria)
    requires ValidCriteria(c)
    requires LanguageGiven(c) ==> forall p | p in Slots :: Free(c.language.value, p)
    ensures forall p | p in Slots :: Free(Build(c), p)
  {
    BuildShape(c);
    forall p | p in Slots
      ensures Free(Build(c), p)
    {
      ClauseFree(c, p);
      ValuesFree(c, p);
    }
  }

  /** The language value appears in the text of a layout, after the first nine pieces. */
  lemma LayoutShowsLanguage(vs: seq<string>)
    requires |vs| == |Slots|
    ensures OccursAt(Concat(Layout(vs)), vs[4], |Concat(Layout(vs)[..9])|)
  {
    var ps := Layout(vs);
    var pre := Concat(ps[..9]);
    ConcatAppend(ps[..9], ps[9..]);
    assert ps == ps[..9] + ps[9..];
    ConcatCons(ps[9], ps[10..]);
    assert ps[9..] == [ps[9]] + ps[10..];
    var q := Concat(ps);
    assert q == pre + (vs[4] + Concat(ps[10..]));
    assert q[|pre|..|pre| + |vs[4]|] == vs[4];
  }

  /** A given language appears in the query behind the language tag, with its
      case as given. */
  lemma LanguagePresent(c: Criteria)
    requires ValidCriteria(c) && LanguageGiven(c)
    ensures exists i :: OccursAt(Build(c), LanguageTag + c.language.value, i)
  {
    BuildShape(c);
    LayoutShowsLanguage(Values(c));
  }

  /** Without a language, the language clause is removed entirely. */
  lemma LanguageAbsent(c: Criteria)
    requires ValidCriteria(c) && !LanguageGiven(c)
    ensures Free(Build(c), LanguageTag)
  {
    BuildShape(c);
    ValuesFree(c, LanguageTag);
  }

  /** The query names a language exactly when a language was given. */
  lemma LanguageTagIff(c: Criteria)
    requires ValidCriteria(c)
    ensures LanguageGiven(c) <==> !Free(Build(c), LanguageTag)
  {
    if LanguageGiven(c) {
      LanguagePresent(c);
      var i :| OccursAt(Build(c), LanguageTag + c.language.value, i);
      assert Build(c)[i..i + |LanguageTag|] == (LanguageTag + c.language.value)[..|LanguageTag|];
      assert OccursAt(Build(c), LanguageTag, i);
    } else {
      LanguageAbsent(c);
    }
  }

  /* ---------------------------------------------------------------------------
     The query of a page
     ------------------------------------------------------------------------- */

  /** The text that takes the place of `AFTER`: nothing while there is no
      cursor or it is empty, the cursor as an `after` argument otherwise. */
  function AfterClause(cursor: Option<string>): string
  {
    match cursor
    case None => ""
    case Some(s) => if s == "" then "" else ", after: \"" + s + "\""
  }

  /** The query sent for the page after `cursor`. */
  function PageQuery(query: string, cursor: Option<string>): string
  {
    ReplaceAll(query, AfterSlot, AfterClause(cursor))
  }

  /** The query of a page is the built query with the `AFTER` slot, and only
      it, replaced by the cursor clause, as long as the language given does
      not contain `AFTER`. */
  lemma PageQueryShape(c: Criteria, cursor: Option<string>)
    requires ValidCriteria(c)
    requires LanguageGiven(c) ==> Free(c.language.value, AfterSlot)
    ensures PageQuery(Build(c), cursor) == Concat(Layout(Values(c))[11 := AfterClause(cursor)])
  {
    BuildShape(c);
    var v := Values(c);
    var p := AfterSlot;
    ValuesUnmarked(c);
    forall m | 0 <= m < 4
      ensures Free(v[m], p)
    {
      UnmarkedFree(v[m], p);
    }
    ClauseFree(c, p);
    LayoutFree(v, 11, p);
    LayoutJoinable(v, p);
    ReplaceSlot(Layout(v), 11, p, AfterClause(cursor));
  }

  /** The first page's query has no `after` argument, and neither has one
      after an empty cursor; any other cursor is quoted into it verbatim. */
  lemma AfterClauseCases(cursor: Option<string>)
    ensures AfterClause(cursor) == "" <==> cursor.None? || cursor.value == ""
    ensures cursor.Some? && cursor.value != "" ==>
      AfterClause(cursor)[|", after: \""|..|AfterClause(cursor)| - 1] == cursor.value
  {
  }
}
