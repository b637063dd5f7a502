/** The literal text of the collector's GraphQL query template, and which
    characters each of its pieces lacks. */
module QueryText {

  /* ---------------------------------------------------------------------------
     The template
     ------------------------------------------------------------------------- */

  const MinStarsSlot := "MIN_STARS"
  const SinceSlot := "SINCE"
  const UntilSlot := "UNTIL"
  const PushedAfterSlot := "PUSHED_AFTER"
  const LanguageSlot := "LANGUAGE:LANGUAGE"
  const AfterSlot := "AFTER"

  /** The placeholders filled when the collector is created, in the order they are filled. */
  const Slots: seq<string> := [MinStarsSlot, SinceSlot, UntilSlot, PushedAfterSlot, LanguageSlot]

  /** What a given language puts in front of its name. */
  const LanguageTag := "language:"

  /** The literal text of the template, cut at its placeholders. The text
      after the `AFTER` slot is cut further into short pieces. */
  const Head0 := "{ " + "search(query: " + "\"is:public " + "stars:>="
  const Head1 := " mirror:false " + "archived:false" + " created:"
  const Head2 := ".."
  const Head3 := " \npushed:>="
  const Head4 := " "
  const Head5 := "\", type: " + "REPOSITORY, " + "first: 50 "

  const Field0 := ") { " + "repositoryCoun" + "t pageInfo { "
  const Field1 := "endCursor " + "startCursor \n" + "hasNextPage "
  const Field2 := "} edges { " + "node { ... on " + "Repository "
  const Field3 := "{ databaseId " + "defaultBranchR" + "ef { "
  const Field4 := "name } owner " + "{ login } " + "name url "
  const Field5 := "description \n" + "primaryLanguag" + "e { name "
  const Field6 := "} stargazers " + "{ totalCount " + "} "
  const Field7 := "watchers { " + "totalCount } " + "releases { "
  const Field8 := "totalCount } " + "issues { \n" + "totalCount } "
  const Field9 := "createdAt " + "pushedAt " + "updatedAt "
  const Field10 := "hasIssuesEnabl" + "ed isArchived "
  const Field11 := "isDisabled " + "isMirror "
  const Field12 := "isFork " + "object(express" + "ion: "
  const Field13 := "\n\"master:\") { " + "... on Tree { " + "entries "
  const Field14 := "{ name type } " + "} } } } } } \n\n" + "    "
  const Field15 := "rateLimit {\n  " + "      limit\n  " + "      "
  const Field16 := "cost\n        " + "remaining\n    " + "    "
  const Field17 := "resetAt\n    }\n" + "}\n"

  /** The selection of fields after the `AFTER` slot, piece by piece. */
  const Fields: seq<string> := [
    Field0, Field1, Field2, Field3, Field4, Field5,
    Field6, Field7, Field8, Field9, Field10, Field11,
    Field12, Field13, Field14, Field15, Field16, Field17
  ]

  /* ---------------------------------------------------------------------------
     Which characters the literal pieces lack
     ------------------------------------------------------------------------- */

  /** The texts searched for in a query: its placeholders and the language tag. */
  predicate Marker(p: string)
  {
    p in Slots || p == AfterSlot || p == LanguageTag
  }

  /** A text lacking, for every marker, one of the marker's characters. */
  predicate Unmarked(s: string)
  {
    && '_' !in s && 'U' !in s && 'G' !in s
    && ('S' !in s || 'N' !in s)
    && ('F' !in s || 'E' !in s)
    && ('g' !in s || ':' !in s)
  }

  predicate Blank(c: char)
  {
    c == ' ' || c == '\n'
  }

  /** A piece of the field selection: unmarked, and ending in white space. */
  predicate Quiet(s: string)
  {
    Unmarked(s) && |s| > 0 && Blank(s[|s| - 1])
  }

  /* ---------------------------------------------------------------------------
     Facts about the pieces. The template is kept in short pieces, and each
     piece gets its own pair of lemmas: `XChars` states which characters the
     piece lacks, and `XFacts` derives from it that no marker occurs in it.
     On a short literal the solver can decide `c !in` character by character;
     on the whole template at once it cannot.
     ------------------------------------------------------------------------- */

  lemma Head0Chars()
    ensures forall i | 0 <= i < |Head0| :: Head0[i] !in "_UGSFg"
  {
  }

  lemma Head0Facts()
    ensures Unmarked(Head0)
  {
    Head0Chars();
  }

  lemma Head1Chars()
    ensures forall i | 0 <= i < |Head1| :: Head1[i] !in "_UGSFg"
  {
  }

  lemma Head1Facts()
    ensures Unmarked(Head1)
  {
    Head1Chars();
  }

  lemma Head2Chars()
    ensures forall i | 0 <= i < |Head2| :: Head2[i] !in "_UGSFg"
  {
  }

  lemma Head2Facts()
    ensures Unmarked(Head2)
  {
    Head2Chars();
  }

  lemma Head3Chars()
    ensures forall i | 0 <= i < |Head3| :: Head3[i] !in "_UGSFg"
  {
  }

  lemma Head3Facts()
    ensures Unmarked(Head3)
  {
    Head3Chars();
  }

  lemma Head4Chars()
    ensures forall i | 0 <= i < |Head4| :: Head4[i] !in "_UGSFg"
  {
  }

  lemma Head4Facts()
    ensures Unmarked(Head4)
  {
    Head4Chars();
  }

  lemma Head5Chars()
    ensures forall i | 0 <= i < |Head5| :: Head5[i] !in "_UGNFg"
  {
  }

  lemma Head5Facts()
    ensures Unmarked(Head5)
  {
    Head5Chars();
  }

  lemma Field0Chars()
    ensures forall i | 0 <= i < |Field0| :: Field0[i] !in "_UGSF:"
  {
  }

  lemma Field0Facts()
    ensures Quiet(Fields[0])
  {
    Field0Chars();
  }

  lemma Field1Chars()
    ensures forall i | 0 <= i < |Field1| :: Field1[i] !in "_UGSF:"
  {
  }

  lemma Field1Facts()
    ensures Quiet(Fields[1])
  {
    Field1Chars();
  }

  lemma Field2Chars()
    ensures forall i | 0 <= i < |Field2| :: Field2[i] !in "_UGSF:"
  {
  }

  lemma Field2Facts()
    ensures Quiet(Fields[2])
  {
    Field2Chars();
  }

  lemma Field3Chars()
    ensures forall i | 0 <= i < |Field3| :: Field3[i] !in "_UGSFg"
  {
  }

  lemma Field3Facts()
    ensures Quiet(Fields[3])
  {
    Field3Chars();
  }

  lemma Field4Chars()
    ensures forall i | 0 <= i < |Field4| :: Field4[i] !in "_UGSF:"
  {
  }

  lemma Field4Facts()
    ensures Quiet(Fields[4])
  {
    Field4Chars();
  }

  lemma Field5Chars()
    ensures forall i | 0 <= i < |Field5| :: Field5[i] !in "_UGSF:"
  {
  }

  lemma Field5Facts()
    ensures Quiet(Fields[5])
  {
    Field5Chars();
  }

  lemma Field6Chars()
    ensures forall i | 0 <= i < |Field6| :: Field6[i] !in "_UGSF:"
  {
  }

  lemma Field6Facts()
    ensures Quiet(Fields[6])
  {
    Field6Chars();
  }

  lemma Field7Chars()
    ensures forall i | 0 <= i < |Field7| :: Field7[i] !in "_UGSFg"
  {
  }

  lemma Field7Facts()
    ensures Quiet(Fields[7])
  {
    Field7Chars();
  }

  lemma Field8Chars()
    ensures forall i | 0 <= i < |Field8| :: Field8[i] !in "_UGSFg"
  {
  }

  lemma Field8Facts()
    ensures Quiet(Fields[8])
  {
    Field8Chars();
  }

  lemma Field9Chars()
    ensures forall i | 0 <= i < |Field9| :: Field9[i] !in "_UGSFg"
  {
  }

  lemma Field9Facts()
    ensures Quiet(Fields[9])
  {
    Field9Chars();
  }

  lemma Field10Chars()
    ensures forall i | 0 <= i < |Field10| :: Field10[i] !in "_UGSFg"
  {
  }

  lemma Field10Facts()
    ensures Quiet(Fields[10])
  {
    Field10Chars();
  }

  lemma Field11Chars()
    ensures forall i | 0 <= i < |Field11| :: Field11[i] !in "_UGSFg"
  {
  }

  lemma Field11Facts()
    ensures Quiet(Fields[11])
  {
    Field11Chars();
  }

  lemma Field12Chars()
    ensures forall i | 0 <= i < |Field12| :: Field12[i] !in "_UGSEg"
  {
  }

  lemma Field12Facts()
    ensures Quiet(Fields[12])
  {
    Field12Chars();
  }

  lemma Field13Chars()
    ensures forall i | 0 <= i < |Field13| :: Field13[i] !in "_UGSFg"
  {
  }

  lemma Field13Facts()
    ensures Quiet(Fields[13])
  {
    Field13Chars();
  }

  lemma Field14Chars()
    ensures forall i | 0 <= i < |Field14| :: Field14[i] !in "_UGSFg"
  {
  }

  lemma Field14Facts()
    ensures Quiet(Fields[14])
  {
    Field14Chars();
  }

  lemma Field15Chars()
    ensures forall i | 0 <= i < |Field15| :: Field15[i] !in "_UGSFg"
  {
  }

  lemma Field15Facts()
    ensures Quiet(Fields[15])
  {
    Field15Chars();
  }

  lemma Field16Chars()
    ensures forall i | 0 <= i < |Field16| :: Field16[i] !in "_UGSF:"
  {
  }

  lemma Field16Facts()
    ensures Quiet(Fields[16])
  {
    Field16Chars();
  }

  lemma Field17Chars()
    ensures forall i | 0 <= i < |Field17| :: Field17[i] !in "_UGSFg"
  {
  }

  lemma Field17Facts()
    ensures Quiet(Fields[17])
  {
    Field17Chars();
  }

  /** Every piece of the field selection is quiet. */
  lemma FieldFacts(k: nat)
    requires k < |Fields|
    ensures Quiet(Fields[k])
  {
    if k == 0 {
      Field0Facts();
    } else if k == 1 {
      Field1Facts();
    } else if k == 2 {
      Field2Facts();
    } else if k == 3 {
      Field3Facts();
    } else if k == 4 {
      Field4Facts();
    } else if k == 5 {
      Field5Facts();
    } else if k == 6 {
      Field6Facts();
    } else if k == 7 {
      Field7Facts();
    } else if k == 8 {
      Field8Facts();
    } else if k == 9 {
      Field9Facts();
    } else if k == 10 {
      Field10Facts();
    } else if k == 11 {
      Field11Facts();
    } else if k == 12 {
      Field12Facts();
    } else if k == 13 {
      Field13Facts();
    } else if k == 14 {
      Field14Facts();
    } else if k == 15 {
      Field15Facts();
    } else if k == 16 {
      Field16Facts();
    } else {
      Field17Facts();
    }
  }

}
