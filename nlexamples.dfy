// Worked expressions for the natural-language reader (internal/parse/from_natural_language.go).
// Each concrete fact sits in a lemma of its own, and every lemma about a
// whole expression reaches it through the general lemmas.

module NaturalLanguageExamples {
  import opened Results
  import opened GoInt
  import opened GoTime
  import opened Types
  import opened Decimal
  import opened Text
  import opened NaturalLanguage

  // ---- Words ----

  lemma HourSpelling()
    ensures IsUnitSpelling("hour")
  {
    CaseFolds("hour", "hour");
    SpellsUnit("hour", "hour");
  }

  lemma CapitalHourSpelling()
    ensures IsUnitSpelling("HOUR")
  {
    CaseFolds("HOUR", "hour");
    SpellsUnit("HOUR", "hour");
  }

  lemma HourLower()
    ensures Lower("hour") == "hour"
  {
    LowerIsWord("hour", "hour");
  }

  lemma AgoSpelling()
    ensures IsDirectionSpelling("ago")
  {
    CaseFolds("ago", "ago");
    SpellsDirection("ago", "ago");
  }

  lemma CapitalAgoSpelling()
    ensures IsDirectionSpelling("AGO")
  {
    CaseFolds("AGO", "ago");
    SpellsDirection("AGO", "ago");
  }

  lemma AgoSign()
    ensures Sign("ago") == -1
  {
    LowerIsWord("ago", "ago");
  }

  lemma MonthSpelling()
    ensures IsUnitSpelling("month")
  {
    CaseFolds("month", "month");
    SpellsUnit("month", "month");
  }

  lemma MonthLower()
    ensures Lower("month") == "month"
  {
    LowerIsWord("month", "month");
  }

  lemma LaterSpelling()
    ensures IsDirectionSpelling("later")
  {
    CaseFolds("later", "later");
    SpellsDirection("later", "later");
  }

  lemma LaterSign()
    ensures Sign("later") == 1
  {
    LowerIsWord("later", "later");
  }

  /** `second` with a long s in place of its `s`. */
  lemma LongSecondSpelling()
    ensures IsUnitSpelling([LongS] + "econd") && LongS in [LongS] + "econd"
  {
    var t := [LongS] + "econd";
    FoldEqAt(t, "second");
    SpellsUnit(t, "second");
  }

  // ---- Quantities ----

  lemma QuantityTwo()
    ensures IsQuantityToken("2") && Quantity("2") == Ok(2)
  {
  }

  lemma QuantityThree()
    ensures IsQuantityToken("3") && Quantity("3") == Ok(3)
  {
  }

  lemma QuantityOne()
    ensures IsQuantityToken("1") && Quantity("1") == Ok(1)
  {
  }

  /** A capital `A` matches the pattern's `a` but is not the exact `a` the quantity switch expects. */
  lemma QuantityCapitalA()
    ensures IsQuantityToken("A") && Quantity("A") == Err(InvalidQuantity("A"))
  {
    CaseFolds("A", "a");
  }

  /** A sign is not part of the pattern's quantity. */
  lemma NotQuantityNegative()
    ensures !IsQuantityToken("-1")
  {
    assert !IsDigit("-1"[0]);
  }

  // ---- Layouts of the expressions ----

  lemma TwoHoursAgoPieces()
    ensures "2 hours ago" == "" + "2" + " " + "hour" + "s" + " " + "ago" + ""
  {
  }

  lemma CapitalPieces()
    ensures "A HOUR AGO" == "" + "A" + " " + "HOUR" + "" + " " + "AGO" + ""
  {
  }

  lemma MonthsLaterPieces()
    ensures "  3 months later " == "  " + "3" + " " + "month" + "s" + " " + "later" + " "
  {
  }

  lemma LongSecondPieces()
    ensures "1 " + [LongS] + "econd ago" == "" + "1" + " " + ([LongS] + "econd") + "" + " " + "ago" + ""
  {
  }

  lemma NegativePieces()
    ensures "-1 hour ago" == Glue(["", " ", " ", ""], ["-1", "hour", "ago"])
  {
    Glue3(["", " ", " ", ""], ["-1", "hour", "ago"]);
  }

  // ---- Matches ----

  lemma TwoHoursAgoMatch(e: string)
    requires e == "2 hours ago"
    ensures Match(e) == Some(("2", "hour", "ago"))
  {
    TwoHoursAgoPieces();
    QuantityTwo();
    HourSpelling();
    AgoSpelling();
    MatchOf(e, "", "2", " ", "hour", "s", " ", "ago", "");
  }

  lemma CapitalMatch(e: string)
    requires e == "A HOUR AGO"
    ensures Match(e) == Some(("A", "HOUR", "AGO"))
  {
    CapitalPieces();
    QuantityCapitalA();
    CapitalHourSpelling();
    CapitalAgoSpelling();
    MatchOf(e, "", "A", " ", "HOUR", "", " ", "AGO", "");
  }

  lemma MonthsLaterMatch(e: string)
    requires e == "  3 months later "
    ensures Match(e) == Some(("3", "month", "later"))
  {
    MonthsLaterSpelled(e);
    MatchOf(e, "  ", "3", " ", "month", "s", " ", "later", " ");
  }

  lemma MonthsLaterSpelled(e: string)
    requires e == "  3 months later "
    ensures Spelled(e, "  ", "3", " ", "month", "s", " ", "later", " ")
  {
    assert Spaces("  ") && Spaces(" ") && PluralSuffix("s");
    QuantityThree();
    MonthSpelling();
    LaterSpelling();
    MonthsLaterPieces();
  }

  lemma LongSecondMatch(e: string)
    requires e == "1 " + [LongS] + "econd ago"
    ensures Match(e) == Some(("1", [LongS] + "econd", "ago"))
  {
    LongSecondPieces();
    QuantityOne();
    LongSecondSpelling();
    AgoSpelling();
    MatchOf(e, "", "1", " ", [LongS] + "econd", "", " ", "ago", "");
  }

  lemma NegativeNoMatch(e: string)
    requires e == "-1 hour ago"
    ensures Match(e) == None
  {
    NegativePieces();
    FieldsOfGlue(["", " ", " ", ""], ["-1", "hour", "ago"]);
    NotQuantityNegative();
  }

  // ---- Whole expressions ----

  /** "2 hours ago": two hours before the base, shown in the result zone. */
  lemma TwoHoursAgo(base: Instant, loc: Location)
    ensures Relative("2 hours ago", base, loc) == Ok(In(Add(base, -2 * NsPerHour), loc))
  {
    TwoHoursAgoMatch("2 hours ago");
    QuantityTwo();
    HourLower();
    AgoSpelling();
    AgoSign();
    DurationOffset("2", "hour", "ago", base, loc, 2);
  }

  /** Surrounding spaces are allowed: "  3 months later " is three calendar months on. */
  lemma ThreeMonthsLater(base: Instant, loc: Location)
    ensures Relative("  3 months later ", base, loc) == Ok(In(AddDate(base, 0, 3, 0), loc))
  {
    MonthsLaterMatch("  3 months later ");
    QuantityThree();
    MonthLower();
    LaterSpelling();
    LaterSign();
    CalendarOffset("3", "month", "later", base, loc, 3);
  }

  /**
   * "A HOUR AGO" matches the case-insensitive pattern but fails: only the
   * exact lower-case `a` and `an` count as one.
   */
  lemma CapitalArticleFails(base: Instant, loc: Location)
    ensures Relative("A HOUR AGO", base, loc) == Err(InvalidQuantity("A"))
  {
    CapitalMatch("A HOUR AGO");
    QuantityCapitalA();
  }

  lemma ArticleCapitalA()
    ensures IsArticle("A")
  {
    CaseFolds("A", "a");
  }

  lemma ArticleMixedAn()
    ensures IsArticle("An") && IsQuantityToken("An")
  {
    CaseFolds("An", "an");
  }

  lemma CapitalHourLower()
    ensures Lower("HOUR") == "hour" && Lower("HoUr") == "hour"
  {
    LowerIsWord("HOUR", "hour");
    LowerIsWord("HoUr", "hour");
  }

  lemma CapitalAgoSign()
    ensures Sign("AGO") == -1 && Sign("AgO") == -1
  {
    LowerIsWord("AGO", "ago");
    LowerIsWord("AgO", "ago");
  }

  lemma MixedHourSpelling()
    ensures IsUnitSpelling("HoUr")
  {
    CaseFolds("HoUr", "hour");
    SpellsUnit("HoUr", "hour");
  }

  lemma MixedAgoSpelling()
    ensures IsDirectionSpelling("AgO")
  {
    CaseFolds("AgO", "ago");
    SpellsDirection("AgO", "ago");
  }

  lemma MixedPieces()
    ensures "An HoUr AgO" == "" + "An" + " " + "HoUr" + "" + " " + "AgO" + ""
  {
  }

  lemma MixedMatch(e: string)
    requires e == "An HoUr AgO"
    ensures Match(e) == Some(("An", "HoUr", "AgO"))
  {
    MixedPieces();
    ArticleMixedAn();
    MixedHourSpelling();
    MixedAgoSpelling();
    MatchOf(e, "", "An", " ", "HoUr", "", " ", "AgO", "");
  }

  /** One hour back, for any spelling of the unit and of a backward direction. */
  lemma OneHourBack(u: string, d: string, base: Instant, loc: Location)
    requires Lower(u) == "hour" && IsDirectionSpelling(d) && Sign(d) == -1
    ensures Interpret("1", u, d, base, loc) == Ok(In(Add(base, -NsPerHour), loc))
  {
    QuantityOne();
    DurationOffset("1", u, d, base, loc, 1);
  }

  /** With the article check folded, "A HOUR AGO" is one hour before the base. */
  lemma CapitalArticleFolded(base: Instant, loc: Location)
    ensures RelativeFolded("A HOUR AGO", base, loc) == Ok(In(Add(base, -NsPerHour), loc))
  {
    CapitalMatch("A HOUR AGO");
    ArticleCapitalA();
    CapitalHourLower();
    CapitalAgoSpelling();
    CapitalAgoSign();
    OneHourBack("HOUR", "AGO", base, loc);
  }

  /** With the article check folded, "An HoUr AgO" is one hour before the base. */
  lemma MixedArticleFolded(base: Instant, loc: Location)
    ensures RelativeFolded("An HoUr AgO", base, loc) == Ok(In(Add(base, -NsPerHour), loc))
  {
    MixedMatch("An HoUr AgO");
    ArticleMixedAn();
    CapitalHourLower();
    MixedAgoSpelling();
    CapitalAgoSign();
    OneHourBack("HoUr", "AgO", base, loc);
  }

  /** As written, "An HoUr AgO" fails the same way "A HOUR AGO" does. */
  lemma MixedArticleFails(base: Instant, loc: Location)
    ensures Relative("An HoUr AgO", base, loc) == Err(InvalidQuantity("An"))
  {
    MixedMatch("An HoUr AgO");
    ArticleMixedAn();
    ArticleNotNumber("An");
  }

  /**
   * "1 ſecond ago" matches, since the pattern folds the long s to `s`, but
   * the unit switch does not know the lower-cased unit.
   */
  lemma LongSecondFails(base: Instant, loc: Location)
    ensures Relative("1 " + [LongS] + "econd ago", base, loc) == Err(UnknownTimeUnit([LongS] + "econd"))
  {
    LongSecondMatch("1 " + [LongS] + "econd ago");
    LongSecondSpelling();
    AgoSpelling();
    QuantityOne();
    InterpretErrors("1", [LongS] + "econd", "ago", base, loc);
  }

  /** A signed quantity is not an expression the pattern accepts. */
  lemma NegativeUnsupported(base: Instant, loc: Location)
    ensures Relative("-1 hour ago", base, loc) == Err(UnsupportedExpression("-1 hour ago"))
  {
    NegativeNoMatch("-1 hour ago");
  }
}
