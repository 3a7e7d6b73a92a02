// Relative time expressions such as "an hour ago" (internal/parse/from_natural_language.go).

module NaturalLanguage {
  import opened Results
  import opened GoInt
  import opened GoTime
  import opened Types
  import opened Decimal
  import opened Text

  // ---- Options ----

  /** `WithFromNaturalLanguageBaseTime` and `WithFromNaturalLanguageLocation` (a nil zone is `None`). */
  datatype LanguageOption = BaseTime(base: Instant) | InLocation(loc: Option<Location>)

  /** `FromNaturalLanguageOption`: the base time and zone the options left behind. */
  datatype LanguageConfig = LanguageConfig(baseTime: Option<Instant>, loc: Option<Location>)

  /** One option applied to the configuration: a zero base time is ignored, a zone (even nil) replaces the last. */
  function ApplyOption(c: LanguageConfig, o: LanguageOption): LanguageConfig {
    match o
    case BaseTime(b) => if IsZero(b) then c else c.(baseTime := Some(b))
    case InLocation(l) => c.(loc := l)
  }

  /** The options applied in order to an empty configuration. */
  function Configure(opts: seq<LanguageOption>): LanguageConfig {
    if opts == [] then LanguageConfig(None, None)
    else ApplyOption(Configure(opts[..|opts| - 1]), opts[|opts| - 1])
  }

  /** The base time: the configured one when set and non-zero, the clock otherwise. */
  function BaseOf(c: LanguageConfig, now: Instant): Instant {
    if c.baseTime.Some? && !IsZero(c.baseTime.value) then c.baseTime.value else now
  }

  /** The zone of the result: the configured one, else the base time's own. */
  function LocOf(c: LanguageConfig, base: Instant): Location {
    if c.loc.Some? then c.loc.value else base.loc
  }

  // ---- The pattern ----

  const UnitWords: seq<string> :=
    ["nanosecond", "microsecond", "millisecond", "second", "minute", "hour", "day", "week", "month", "year"]

  const DirectionWords: seq<string> := ["ago", "later", "before", "after"]

  /** The first word of the list the token spells under case folding, if any. */
  function Folded(t: string, words: seq<string>): (r: Option<string>)
    requires forall j :: 0 <= j < |words| ==> LowerWord(words[j])
    ensures r.Some? ==> r.value in words && FoldEq(t, r.value)
    ensures r.None? ==> forall j :: 0 <= j < |words| ==> !FoldEq(t, words[j])
  {
    if words == [] then None
    else if FoldEq(t, words[0]) then Some(words[0])
    else Folded(t, words[1..])
  }

  /** `(a|an|\d+)` under `(?i)`. */
  predicate IsQuantityToken(t: string) {
    FoldEq(t, "a") || FoldEq(t, "an") || (|t| > 0 && AllDigits(t))
  }

  /** `(w1|w2|…)s?` under `(?i)`: the group a token leaves, if it matches. */
  function GroupIn(t: string, words: seq<string>): Option<string>
    requires forall j :: 0 <= j < |words| ==> LowerWord(words[j])
  {
    if Folded(t, words).Some? then Some(t)
    else if |t| > 1 && FoldsTo(t[|t| - 1], 's') && Folded(t[..|t| - 1], words).Some? then
      Some(t[..|t| - 1])
    else None
  }

  /** `(nanosecond|…|year)s?` under `(?i)`: the unit group the token leaves, if it matches. */
  function UnitGroup(t: string): Option<string> {
    GroupIn(t, UnitWords)
  }

  /** The token spells one of the ten units under case folding. */
  predicate IsUnitSpelling(u: string) {
    Folded(u, UnitWords).Some?
  }

  /** The token spells one of the four directions under case folding. */
  predicate IsDirectionSpelling(d: string) {
    Folded(d, DirectionWords).Some?
  }

  /**
   * The anchored pattern `(?i)^\s*(a|an|\d+)\s+(unit)s?\s+(direction)\s*$`.
   * None of its three parts can hold a space, so a match is exactly three
   * fields of the right shapes; the groups are the first field, the unit
   * part of the second and the third field.
   */
  function Match(expr: string): (r: Option<(string, string, string)>)
    ensures r.Some? ==> IsQuantityToken(r.value.0) && IsUnitSpelling(r.value.1) && IsDirectionSpelling(r.value.2)
  {
    var fs := Fields(expr);
    if |fs| == 3 && IsQuantityToken(fs[0]) && UnitGroup(fs[1]).Some? && IsDirectionSpelling(fs[2]) then
      Some((fs[0], UnitGroup(fs[1]).value, fs[2]))
    else None
  }

  // ---- The offset ----

  /** The amounts the unit switch fills in; `duration` is a `time.Duration`. */
  datatype Shift = Shift(duration: Int64, days: Int64, months: Int64, years: Int64)

  /** The quantity group: exactly `a` or `an` is one, anything else goes through `strconv.Atoi`. */
  function Quantity(q: string): (r: Result<Int64, Error>)
    ensures q == "a" || q == "an" ==> r == Ok(1)
    ensures q != "a" && q != "an" ==> (r.Ok? <==> Atoi(q).Some?)
    ensures r.Ok? && q != "a" && q != "an" ==> Atoi(q) == Some(r.value)
    ensures r.Err? ==> r == Err(InvalidQuantity(q))
  {
    if q == "a" || q == "an" then Ok(1)
    else match Atoi(q)
      case Some(n) => Ok(n)
      case None => Err(InvalidQuantity(q))
  }

  /** The unit switch on the lower-cased unit group; products wrap as 64-bit integers do. */
  function UnitShift(qty: Int64, unit: string): (r: Result<Shift, Error>)
    ensures r.Err? ==> r == Err(UnknownTimeUnit(unit))
  {
    var word := Lower(unit);
    if word == "nanosecond" then Ok(Shift(qty, 0, 0, 0))
    else if word == "microsecond" then Ok(Shift(Wrap(qty * 1000), 0, 0, 0))
    else if word == "millisecond" then Ok(Shift(Wrap(qty * 1_000_000), 0, 0, 0))
    else if word == "second" then Ok(Shift(Wrap(qty * NsPerSecond), 0, 0, 0))
    else if word == "minute" then Ok(Shift(Wrap(qty * NsPerMinute), 0, 0, 0))
    else if word == "hour" then Ok(Shift(Wrap(qty * NsPerHour), 0, 0, 0))
    else if word == "day" then Ok(Shift(0, qty, 0, 0))
    else if word == "week" then Ok(Shift(0, Wrap(qty * 7), 0, 0))
    else if word == "month" then Ok(Shift(0, 0, qty, 0))
    else if word == "year" then Ok(Shift(0, 0, 0, qty))
    else Err(UnknownTimeUnit(unit))
  }

  /** The direction switch: `ago` and `before` negate every amount, `later` and `after` keep them. */
  function Directed(s: Shift, dir: string): (r: Result<Shift, Error>)
    ensures r.Err? ==> r == Err(UnknownDirection(dir))
  {
    var word := Lower(dir);
    if word == "ago" || word == "before" then
      Ok(Shift(Wrap(-(s.duration as int)), Wrap(-(s.days as int)), Wrap(-(s.months as int)), Wrap(-(s.years as int))))
    else if word == "later" || word == "after" then Ok(s)
    else Err(UnknownDirection(dir))
  }

  /** A non-zero duration is added; otherwise non-zero calendar amounts go through `AddDate`. */
  function ApplyShift(base: Instant, s: Shift, loc: Location): (r: Instant)
    ensures r.loc == loc
  {
    if s.duration != 0 then In(Add(base, s.duration), loc)
    else if s.days != 0 || s.months != 0 || s.years != 0 then In(AddDate(base, s.years, s.months, s.days), loc)
    else In(base, loc)
  }

  /** The three groups of a match read as quantity, unit and direction, then the offset applied. */
  function Interpret(q: string, u: string, d: string, base: Instant, loc: Location): (r: Result<Instant, Error>)
    ensures r.Ok? ==> r.value.loc == loc
    ensures r.Err? ==> r == Err(InvalidQuantity(q)) || r == Err(UnknownTimeUnit(u)) || r == Err(UnknownDirection(d))
  {
    match Quantity(q)
    case Err(e) => Err(e)
    case Ok(qty) =>
      match UnitShift(qty, u)
      case Err(e) => Err(e)
      case Ok(s) =>
        match Directed(s, d)
        case Err(e) => Err(e)
        case Ok(s') => Ok(ApplyShift(base, s', loc))
  }

  /** The expression after the special words: an unmatched one is unsupported. */
  function Relative(expr: string, base: Instant, loc: Location): (r: Result<Instant, Error>)
    ensures r.Ok? ==> r.value.loc == loc
    ensures Match(expr).None? <==> r == Err(UnsupportedExpression(expr))
  {
    match Match(expr)
    case None => Err(UnsupportedExpression(expr))
    case Some((q, u, d)) => Interpret(q, u, d, base, loc)
  }

  /** `time.Date` at midnight, in zone `loc`, of the base's date moved by `k` days. */
  function Midnight(base: Instant, k: int, loc: Location): Instant {
    Date(Year(base), Month(base), Day(base) + k, 0, 0, 0, 0, loc)
  }

  /** `FromNaturalLanguage(expr, opts...)`, with the clock passed in as `now`. */
  function FromNaturalLanguage(expr: string, opts: seq<LanguageOption>, now: Instant): (r: Result<Instant, Error>)
    ensures var c := Configure(opts); r.Ok? ==> r.value.loc == LocOf(c, BaseOf(c, now))
  {
    var c := Configure(opts);
    var base := BaseOf(c, now);
    var loc := LocOf(c, base);
    var word := Lower(expr);
    if word == "now" then Ok(In(base, loc))
    else if word == "today" then Ok(Midnight(base, 0, loc))
    else if word == "yesterday" then Ok(Midnight(base, -1, loc))
    else if word == "tomorrow" then Ok(Midnight(base, 1, loc))
    else Relative(expr, base, loc)
  }

  // ---- The pattern's language ----

  lemma UnitWordsShape()
    ensures forall j :: 0 <= j < |UnitWords| ==> LowerWord(UnitWords[j])
    ensures forall j :: 0 <= j < |UnitWords| ==> |UnitWords[j]| > 0 && UnitWords[j][|UnitWords[j]| - 1] != 's'
  {
  }

  lemma DirectionWordsShape()
    ensures forall j :: 0 <= j < |DirectionWords| ==> LowerWord(DirectionWords[j]) && 's' !in DirectionWords[j]
  {
  }

  /** A folded spelling of one of the unit words is a unit spelling. */
  lemma SpellsUnit(t: string, w: string)
    requires w in UnitWords && LowerWord(w) && FoldEq(t, w)
    ensures IsUnitSpelling(t)
  {
    UnitWordsShape();
  }

  /** A folded spelling of one of the direction words is a direction spelling. */
  lemma SpellsDirection(t: string, w: string)
    requires w in DirectionWords && LowerWord(w) && FoldEq(t, w)
    ensures IsDirectionSpelling(t)
  {
    DirectionWordsShape();
  }

  /** Everything the three groups can hold is free of spaces. */
  lemma QuantityNoSpaces(q: string)
    requires IsQuantityToken(q)
    ensures NoSpaces(q) && |q| > 0
  {
    if FoldEq(q, "a") {
      FoldNoSpaces(q, "a");
    } else if FoldEq(q, "an") {
      FoldNoSpaces(q, "an");
    }
  }

  /** The characters the `s?` after a unit can match. */
  predicate PluralSuffix(sfx: string) {
    sfx == [] || (|sfx| == 1 && FoldsTo(sfx[0], 's'))
  }

  /** A token ending in a folded `s` spells none of the words, when none of them ends in `s`. */
  lemma {:induction false} EndsInS(t: string, words: seq<string>)
    requires forall j :: 0 <= j < |words| ==> LowerWord(words[j])
    requires forall j :: 0 <= j < |words| ==> |words[j]| > 0 && words[j][|words[j]| - 1] != 's'
    requires |t| > 0 && FoldsTo(t[|t| - 1], 's')
    ensures Folded(t, words).None?
  {
    if words != [] {
      var w := words[0];
      FoldEqAt(t, w);
      if |t| == |w| {
        assert !FoldsTo(t[|t| - 1], w[|w| - 1]);
      }
      EndsInS(t, words[1..]);
    }
  }

  /** A spelling followed by an optional plural `s` leaves the spelling as the group. */
  lemma GroupInOf(u: string, sfx: string, words: seq<string>)
    requires forall j :: 0 <= j < |words| ==> LowerWord(words[j])
    requires forall j :: 0 <= j < |words| ==> |words[j]| > 0 && words[j][|words[j]| - 1] != 's'
    requires Folded(u, words).Some? && PluralSuffix(sfx)
    ensures GroupIn(u + sfx, words) == Some(u)
  {
    var t := u + sfx;
    if sfx == [] {
      assert t == u;
    } else {
      assert t[|t| - 1] == sfx[0];
      EndsInS(t, words);
      assert t[..|t| - 1] == u;
    }
  }

  lemma UnitGroupOf(u: string, sfx: string)
    requires IsUnitSpelling(u) && PluralSuffix(sfx)
    ensures UnitGroup(u + sfx) == Some(u)
  {
    UnitWordsShape();
    GroupInOf(u, sfx, UnitWords);
  }

  /** The unit token of a match is non-empty and has no spaces. */
  lemma UnitTokenShape(u: string, sfx: string)
    requires IsUnitSpelling(u) && PluralSuffix(sfx)
    ensures NoSpaces(u + sfx) && |u + sfx| > 0
  {
    UnitWordsShape();
    var w := Folded(u, UnitWords).value;
    FoldNoSpaces(u, w);
    FoldEqAt(u, w);
  }

  lemma DirectionTokenShape(d: string)
    requires IsDirectionSpelling(d)
    ensures NoSpaces(d) && |d| > 0
  {
    DirectionWordsShape();
    var w := Folded(d, DirectionWords).value;
    FoldNoSpaces(d, w);
    FoldEqAt(d, w);
  }

  /**
   * `expr` is spaces, a quantity, spaces, a unit spelling with an optional
   * `s`, spaces, a direction and spaces: the language of the pattern.
   */
  predicate Spelled(expr: string, pre: string, q: string, mid1: string, u: string, sfx: string, mid2: string,
                    d: string, post: string)
  {
    && Spaces(pre) && Spaces(mid1) && |mid1| > 0 && Spaces(mid2) && |mid2| > 0 && Spaces(post)
    && IsQuantityToken(q) && IsUnitSpelling(u) && PluralSuffix(sfx)
    && IsDirectionSpelling(d)
    && expr == pre + q + mid1 + u + sfx + mid2 + d + post
  }

  lemma MatchOfFields(expr: string, q: string, t: string, u: string, d: string)
    requires Fields(expr) == [q, t, d]
    requires IsQuantityToken(q) && UnitGroup(t) == Some(u) && IsDirectionSpelling(d)
    ensures Match(expr) == Some((q, u, d))
  {
  }

  lemma FieldsOfSpelled(expr: string, pre: string, q: string, mid1: string, u: string, sfx: string, mid2: string,
                        d: string, post: string)
    requires Spelled(expr, pre, q, mid1, u, sfx, mid2, d, post)
    ensures Fields(expr) == [q, u + sfx, d]
  {
    QuantityNoSpaces(q);
    UnitTokenShape(u, sfx);
    DirectionTokenShape(d);
    assert expr == pre + q + mid1 + (u + sfx) + mid2 + d + post;
    FieldsOfThree(expr, pre, q, mid1, u + sfx, mid2, d, post);
  }

  /** Every string the pattern describes matches, with the quantity, the unit and the direction as its groups. */
  lemma MatchOf(expr: string, pre: string, q: string, mid1: string, u: string, sfx: string, mid2: string,
                d: string, post: string)
    requires Spelled(expr, pre, q, mid1, u, sfx, mid2, d, post)
    ensures Match(expr) == Some((q, u, d))
  {
    FieldsOfSpelled(expr, pre, q, mid1, u, sfx, mid2, d, post);
    UnitGroupOf(u, sfx);
    MatchOfFields(expr, q, u + sfx, u, d);
  }

  /** What a match says about the fields of the expression. */
  lemma MatchFields(expr: string)
    requires Match(expr).Some?
    ensures var fs := Fields(expr);
      && |fs| == 3 && Match(expr).value == (fs[0], UnitGroup(fs[1]).value, fs[2])
      && IsQuantityToken(fs[0]) && UnitGroup(fs[1]).Some? && IsDirectionSpelling(fs[2])
  {
  }

  /** A token with a group is its group followed by a plural suffix. */
  lemma GroupInSplit(t: string, words: seq<string>) returns (sfx: string)
    requires forall j :: 0 <= j < |words| ==> LowerWord(words[j])
    requires GroupIn(t, words).Some?
    ensures Folded(GroupIn(t, words).value, words).Some? && PluralSuffix(sfx)
    ensures t == GroupIn(t, words).value + sfx
  {
    if Folded(t, words).Some? {
      sfx := [];
      assert t == t + [];
    } else {
      sfx := [t[|t| - 1]];
      assert t == t[..|t| - 1] + sfx;
    }
  }

  lemma UnitTokenSplit(t: string) returns (sfx: string)
    requires UnitGroup(t).Some?
    ensures IsUnitSpelling(UnitGroup(t).value) && PluralSuffix(sfx) && t == UnitGroup(t).value + sfx
  {
    UnitWordsShape();
    sfx := GroupInSplit(t, UnitWords);
  }

  /** Conversely, a match is exactly such a string, whose groups are the match's groups. */
  lemma MatchSplit(expr: string) returns (pre: string, mid1: string, sfx: string, mid2: string, post: string)
    requires Match(expr).Some?
    ensures Spelled(expr, pre, Match(expr).value.0, mid1, Match(expr).value.1, sfx, mid2, Match(expr).value.2, post)
  {
    MatchFields(expr);
    var fs := Fields(expr);
    var ws := FieldsSplit(expr);
    Glue3(ws, fs);
    pre, mid1, mid2, post := ws[0], ws[1], ws[2], ws[3];
    sfx := UnitTokenSplit(fs[1]);
    var u := UnitGroup(fs[1]).value;
    assert expr == pre + fs[0] + mid1 + u + sfx + mid2 + fs[2] + post;
  }

  /** A match holds a space, so it is never one of the special words. */
  lemma MatchNotSpecial(expr: string)
    requires Match(expr).Some?
    ensures Lower(expr) != "now" && Lower(expr) != "today"
    ensures Lower(expr) != "yesterday" && Lower(expr) != "tomorrow"
  {
    var i := SpaceOfMatch(expr);
    LowerKeepsSpaces(expr, i);
    SpacedNotSpecial(Lower(expr), i);
  }

  /** A match has a space between its quantity and its unit. */
  lemma SpaceOfMatch(expr: string) returns (i: int)
    requires Match(expr).Some?
    ensures 0 <= i < |expr| && IsSpace(expr[i])
  {
    var pre, mid1, sfx, mid2, post := MatchSplit(expr);
    var q := Match(expr).value.0;
    i := |pre| + |q|;
    assert expr[i] == mid1[0];
  }

  /** None of the special words holds a space. */
  lemma SpacedNotSpecial(s: string, i: int)
    requires 0 <= i < |s| && IsSpace(s[i])
    ensures s != "now" && s != "today" && s != "yesterday" && s != "tomorrow"
  {
  }

  // ---- Which errors a match can meet ----

  /** A direction group always lower-cases to its word: the long s cannot occur in one. */
  lemma DirectionLowered(d: string)
    requires IsDirectionSpelling(d)
    ensures Lower(d) in DirectionWords
  {
    DirectionWordsShape();
    var w := Folded(d, DirectionWords).value;
    FoldNoLongS(d, w);
    LowerFolded(d, w);
  }

  /** So the direction switch never fails on a match: "unknown direction" cannot be reached. */
  lemma DirectionAlwaysKnown(s: Shift, d: string)
    requires IsDirectionSpelling(d)
    ensures Directed(s, d).Ok?
  {
    DirectionLowered(d);
  }

  lemma LowerKeepsLongS(u: string)
    requires LongS in u
    ensures LongS in Lower(u)
  {
    var i :| 0 <= i < |u| && u[i] == LongS;
    LowerAt(u, i);
  }

  /** The unit switch accepts exactly the ten unit words, after lower-casing. */
  lemma UnitShiftAccepts(qty: Int64, u: string)
    ensures UnitShift(qty, u).Ok? <==> Lower(u) in UnitWords
    ensures UnitShift(qty, u).Err? ==> UnitShift(qty, u) == Err(UnknownTimeUnit(u))
  {
  }

  /** A matched unit lower-cases to a unit word exactly when it holds no long s. */
  lemma UnitLoweredIff(u: string)
    requires IsUnitSpelling(u)
    ensures Lower(u) in UnitWords <==> LongS !in u
  {
    UnitWordsShape();
    var w := Folded(u, UnitWords).value;
    LowerFolded(u, w);
    if LongS in u {
      LowerKeepsLongS(u);
      forall j | 0 <= j < |UnitWords| ensures Lower(u) != UnitWords[j] {
        assert LowerWord(UnitWords[j]);
      }
    }
  }

  /**
   * The unit switch fails on a matched unit exactly when it is spelled with
   * a long s, which `(?i)` lets stand for `s` and `strings.ToLower` keeps.
   */
  lemma UnitKnownIff(qty: Int64, u: string)
    requires IsUnitSpelling(u)
    ensures UnitShift(qty, u).Ok? <==> LongS !in u
    ensures UnitShift(qty, u).Err? ==> UnitShift(qty, u) == Err(UnknownTimeUnit(u))
  {
    UnitShiftAccepts(qty, u);
    UnitLoweredIff(u);
  }

  /**
   * On a match, the only failures are an invalid quantity and a unit
   * spelled with a long s; the direction never fails.
   */
  lemma InterpretErrors(q: string, u: string, d: string, base: Instant, loc: Location)
    requires IsUnitSpelling(u) && IsDirectionSpelling(d)
    ensures Quantity(q).Err? ==> Interpret(q, u, d, base, loc) == Err(InvalidQuantity(q))
    ensures Quantity(q).Ok? && LongS in u ==> Interpret(q, u, d, base, loc) == Err(UnknownTimeUnit(u))
    ensures Quantity(q).Ok? && LongS !in u ==> Interpret(q, u, d, base, loc).Ok?
  {
    if Quantity(q).Ok? {
      UnitKnownIff(Quantity(q).value, u);
      if LongS !in u {
        DirectionAlwaysKnown(UnitShift(Quantity(q).value, u).value, d);
      }
    }
  }

  /** The same, for a whole expression the pattern matches. */
  lemma RelativeErrors(expr: string, base: Instant, loc: Location)
    requires Match(expr).Some?
    ensures var (q, u, d) := Match(expr).value;
      && (Quantity(q).Err? ==> Relative(expr, base, loc) == Err(InvalidQuantity(q)))
      && (Quantity(q).Ok? && LongS in u ==> Relative(expr, base, loc) == Err(UnknownTimeUnit(u)))
      && (Quantity(q).Ok? && LongS !in u ==> Relative(expr, base, loc).Ok?)
  {
    var (q, u, d) := Match(expr).value;
    MatchGroups(expr);
    InterpretErrors(q, u, d, base, loc);
  }

  /** An expression after the special words never meets the "unknown direction" error. */
  lemma RelativeNeverUnknownDirection(expr: string, base: Instant, loc: Location)
    ensures var r := Relative(expr, base, loc); !(r.Err? && r.error.UnknownDirection?)
  {
    if Match(expr).Some? {
      RelativeErrors(expr, base, loc);
    }
  }

  /** No input at all reaches the "unknown direction" error. */
  lemma NeverUnknownDirection(expr: string, opts: seq<LanguageOption>, now: Instant)
    ensures var r := FromNaturalLanguage(expr, opts, now); !(r.Err? && r.error.UnknownDirection?)
  {
    var c := Configure(opts);
    var base := BaseOf(c, now);
    Dispatch(expr, opts, now);
    RelativeNeverUnknownDirection(expr, base, LocOf(c, base));
  }

  // ---- What a match means ----

  /** A matched quantity is never negative: the pattern admits no sign. */
  lemma QuantityNonNegative(q: string)
    requires IsQuantityToken(q) && Quantity(q).Ok?
    ensures Quantity(q).value >= 0
  {
    if q != "a" && q != "an" {
      if FoldEq(q, "a") {
        FoldEqAt(q, "a");
      } else if FoldEq(q, "an") {
        FoldEqAt(q, "an");
      }
      assert q[0] != '-';
    }
  }

  const DurationWords: seq<string> := ["nanosecond", "microsecond", "millisecond", "second", "minute", "hour"]
  const CalendarWords: seq<string> := ["day", "week", "month", "year"]

  /** The length in nanoseconds of a fixed-length unit. */
  function UnitNanos(word: string): (n: int)
    requires word in DurationWords
    ensures n > 0
  {
    if word == "nanosecond" then 1
    else if word == "microsecond" then 1000
    else if word == "millisecond" then 1_000_000
    else if word == "second" then NsPerSecond
    else if word == "minute" then NsPerMinute
    else NsPerHour
  }

  /** The `(years, months, days)` that `n` of a calendar unit stand for; a week is seven days. */
  function CalendarAmounts(word: string, n: int): (int, int, int)
    requires word in CalendarWords
  {
    if word == "day" then (0, 0, n)
    else if word == "week" then (0, 0, 7 * n)
    else if word == "month" then (0, n, 0)
    else (n, 0, 0)
  }

  /** `ago` and `before` point into the past, `later` and `after` into the future. */
  function Sign(d: string): int {
    var word := Lower(d);
    if word == "ago" || word == "before" then -1 else 1
  }

  lemma DurationShift(n: Int64, u: string)
    requires Lower(u) in DurationWords && 0 <= n && n * UnitNanos(Lower(u)) <= MaxInt64
    ensures UnitShift(n, u) == Ok(Shift(n * UnitNanos(Lower(u)), 0, 0, 0))
  {
  }

  lemma CalendarShift(n: Int64, u: string)
    requires Lower(u) in CalendarWords && 0 <= n && (Lower(u) == "week" ==> 7 * n <= MaxInt64)
    ensures var (ys, ms, ds) := CalendarAmounts(Lower(u), n);
      UnitShift(n, u) == Ok(Shift(0, ds, ms, ys))
  {
  }

  /** A matched direction scales every amount by its sign. */
  lemma DirectedBySign(s: Shift, d: string)
    requires IsDirectionSpelling(d)
    requires s.duration != MinInt64 && s.days != MinInt64 && s.months != MinInt64 && s.years != MinInt64
    ensures Directed(s, d) == Ok(Shift(Sign(d) * s.duration, Sign(d) * s.days, Sign(d) * s.months,
                                       Sign(d) * s.years))
  {
    DirectionLowered(d);
  }

  /** The shapes of the three groups of a match. */
  lemma MatchGroups(expr: string)
    requires Match(expr).Some?
    ensures IsQuantityToken(Match(expr).value.0) && IsUnitSpelling(Match(expr).value.1)
    ensures IsDirectionSpelling(Match(expr).value.2)
  {
    var pre, mid1, sfx, mid2, post := MatchSplit(expr);
  }

  lemma ApplyDuration(base: Instant, x: Int64, loc: Location)
    ensures ApplyShift(base, Shift(x, 0, 0, 0), loc) == In(Add(base, x), loc)
  {
  }

  /**
   * "N <fixed unit> ago/later": the base moved by N times the unit, back or
   * forward, shown in the result zone (a quantity of 0 gives the base itself).
   */
  lemma DurationOffset(q: string, u: string, d: string, base: Instant, loc: Location, n: Int64)
    requires IsQuantityToken(q) && IsDirectionSpelling(d) && Quantity(q) == Ok(n)
    requires Lower(u) in DurationWords && n * UnitNanos(Lower(u)) <= MaxInt64
    ensures Interpret(q, u, d, base, loc) == Ok(In(Add(base, Sign(d) * (n * UnitNanos(Lower(u)))), loc))
  {
    QuantityNonNegative(q);
    var len := UnitNanos(Lower(u));
    DurationShift(n, u);
    var s := Shift(n * len, 0, 0, 0);
    DirectedBySign(s, d);
    var x := Sign(d) * (n * len);
    assert Directed(s, d) == Ok(Shift(x, 0, 0, 0));
    ApplyDuration(base, x, loc);
  }

  /**
   * "N <calendar unit> ago/later": calendar arithmetic on the base in its own
   * zone through `AddDate`, then shown in the result zone; a week is seven
   * days and a quantity of 0 gives the base itself.
   */
  lemma CalendarOffset(q: string, u: string, d: string, base: Instant, loc: Location, n: Int64)
    requires IsQuantityToken(q) && IsDirectionSpelling(d) && Quantity(q) == Ok(n)
    requires Lower(u) in CalendarWords && (Lower(u) == "week" ==> 7 * n <= MaxInt64)
    ensures var (ys, ms, ds) := CalendarAmounts(Lower(u), n);
      Interpret(q, u, d, base, loc) == Ok(In(AddDate(base, Sign(d) * ys, Sign(d) * ms, Sign(d) * ds), loc))
  {
    QuantityNonNegative(q);
    CalendarShift(n, u);
    var (ys, ms, ds) := CalendarAmounts(Lower(u), n);
    DirectedBySign(Shift(0, ds, ms, ys), d);
    if ys == 0 && ms == 0 && ds == 0 {
      Recompose(base);
    }
  }

  // ---- The special words ----

  /**
   * The four special words are recognised in any mix of upper and lower
   * case; everything else goes to the pattern.
   */
  lemma Dispatch(expr: string, opts: seq<LanguageOption>, now: Instant)
    ensures var c := Configure(opts); var base := BaseOf(c, now); var loc := LocOf(c, base);
      var r := FromNaturalLanguage(expr, opts, now);
      && (CaseEq(expr, "now") ==> r == Ok(In(base, loc)))
      && (CaseEq(expr, "today") ==> r == Ok(Midnight(base, 0, loc)))
      && (CaseEq(expr, "yesterday") ==> r == Ok(Midnight(base, -1, loc)))
      && (CaseEq(expr, "tomorrow") ==> r == Ok(Midnight(base, 1, loc)))
      && ((!CaseEq(expr, "now") && !CaseEq(expr, "today") && !CaseEq(expr, "yesterday")
           && !CaseEq(expr, "tomorrow")) ==> r == Relative(expr, base, loc))
  {
    LowerIsWord(expr, "now");
    LowerIsWord(expr, "today");
    LowerIsWord(expr, "yesterday");
    LowerIsWord(expr, "tomorrow");
  }

  /** Midnight, in zone `loc`, of the date `k` days after the base's own date. */
  lemma MidnightAfter(base: Instant, k: int, loc: Location)
    ensures var r := Midnight(base, k, loc);
      r.loc == loc && NanoOfDay(r) == 0 && LocalDays(r) == LocalDays(base) + k
  {
    var d := DateOf(base);
    DateFields(d.year, d.month, d.day, 0, 0, 0, 0, loc);
    DateDayShift(d.year, d.month, d.day, k, loc);
    ShiftByDays(Date(d.year, d.month, d.day, 0, 0, 0, 0, loc), k);
  }

  /**
   * "today", "yesterday" and "tomorrow", in any mix of upper and lower case:
   * midnight in the result zone of the base's date, the day before, or the
   * day after (the local day count moves by one, so months and years roll
   * over as the calendar does).
   */
  lemma DayWords(expr: string, opts: seq<LanguageOption>, now: Instant, k: int)
    requires (k == 0 && CaseEq(expr, "today")) || (k == -1 && CaseEq(expr, "yesterday"))
             || (k == 1 && CaseEq(expr, "tomorrow"))
    ensures FromNaturalLanguage(expr, opts, now).Ok?
    ensures var t := FromNaturalLanguage(expr, opts, now).value;
      NanoOfDay(t) == 0 && LocalDays(t) == LocalDays(BaseOf(Configure(opts), now)) + k
  {
    var c := Configure(opts);
    var base := BaseOf(c, now);
    var loc := LocOf(c, base);
    Dispatch(expr, opts, now);
    assert FromNaturalLanguage(expr, opts, now) == Ok(Midnight(base, k, loc));
    MidnightAfter(base, k, loc);
  }

  // ---- Options ----

  /** The zone option given last wins, a nil one included. */
  lemma {:induction false} LastLocationWins(opts: seq<LanguageOption>, i: int)
    requires 0 <= i < |opts| && opts[i].InLocation?
    requires forall j :: i < j < |opts| ==> !opts[j].InLocation?
    ensures Configure(opts).loc == opts[i].loc
    decreases |opts|
  {
    if i < |opts| - 1 {
      var init := opts[..|opts| - 1];
      assert init[i] == opts[i];
      LastLocationWins(init, i);
    }
  }

  /** Without a zone option the result is shown in the base time's zone. */
  lemma {:induction false} NoLocation(opts: seq<LanguageOption>)
    requires forall j :: 0 <= j < |opts| ==> !opts[j].InLocation?
    ensures Configure(opts).loc == None
    decreases |opts|
  {
    if opts != [] {
      NoLocation(opts[..|opts| - 1]);
    }
  }

  /** Among the base-time options, the last non-zero one wins; zero ones are ignored. */
  lemma {:induction false} LastBaseWins(opts: seq<LanguageOption>, i: int, now: Instant)
    requires 0 <= i < |opts| && opts[i].BaseTime? && !IsZero(opts[i].base)
    requires forall j :: i < j < |opts| ==> !(opts[j].BaseTime? && !IsZero(opts[j].base))
    ensures Configure(opts).baseTime == Some(opts[i].base)
    ensures BaseOf(Configure(opts), now) == opts[i].base
    decreases |opts|
  {
    if i < |opts| - 1 {
      var init := opts[..|opts| - 1];
      assert init[i] == opts[i];
      LastBaseWins(init, i, now);
    }
  }

  /** Without a non-zero base-time option the clock is the base. */
  lemma {:induction false} NoBase(opts: seq<LanguageOption>, now: Instant)
    requires forall j :: 0 <= j < |opts| ==> !(opts[j].BaseTime? && !IsZero(opts[j].base))
    ensures Configure(opts).baseTime == None
    ensures BaseOf(Configure(opts), now) == now
    decreases |opts|
  {
    if opts != [] {
      NoBase(opts[..|opts| - 1], now);
    }
  }

  // ---- The article check as the case-insensitive pattern intends it ----

  /** `a` or `an` in any case, as the pattern's `(?i)` reads them. */
  predicate IsArticle(q: string) {
    FoldEq(q, "a") || FoldEq(q, "an")
  }

  /** An article spelled with an upper-case letter is neither a sign nor a digit, so `Atoi` rejects it. */
  lemma ArticleNotNumber(q: string)
    requires IsArticle(q)
    ensures Atoi(q) == None
  {
    if FoldEq(q, "a") {
      FoldEqAt(q, "a");
    } else {
      FoldEqAt(q, "an");
    }
    assert !IsDigit(q[0]);
  }

  /**
   * The quantity group with the article check folded like the rest of the
   * pattern: every spelling of `a` or `an` is one. A token the pattern
   * accepts then fails only as a number beyond the 64-bit range.
   */
  function QuantityFolded(q: string): (r: Result<Int64, Error>)
    ensures IsArticle(q) ==> r == Ok(1)
    ensures IsQuantityToken(q) ==> (r.Err? <==> !IsArticle(q) && AllDigits(q) && Decimal.Value(q) > MaxInt64)
    ensures IsQuantityToken(q) && r.Ok? && !IsArticle(q) ==> r.value as int == Decimal.Value(q)
    ensures r.Err? ==> r == Err(InvalidQuantity(q))
  {
    if IsArticle(q) then Ok(1)
    else
      assert q != "a" && q != "an" by {
        CaseFolds("a", "a");
        CaseFolds("an", "an");
      }
      if IsQuantityToken(q) then AtoiDigits(q); Quantity(q) else Quantity(q)
  }

  /** The folded check differs from the code exactly on an article that is not all lower case. */
  lemma QuantityFoldedAgrees(q: string)
    ensures QuantityFolded(q) != Quantity(q) <==> IsArticle(q) && q != "a" && q != "an"
    ensures QuantityFolded(q) != Quantity(q) ==> Quantity(q) == Err(InvalidQuantity(q))
  {
    if IsArticle(q) && q != "a" && q != "an" {
      ArticleNotNumber(q);
    }
  }

  /** `Interpret` with the folded article check. */
  function InterpretFolded(q: string, u: string, d: string, base: Instant, loc: Location): (r: Result<Instant, Error>)
    ensures r == Interpret(if IsArticle(q) then "1" else q, u, d, base, loc)
  {
    assert Quantity("1") == Ok(1) by {
      assert Decimal.Value("1") == Decimal.Value("1"[..0]) * 10 + 1;
    }
    match QuantityFolded(q)
    case Err(e) => Err(e)
    case Ok(qty) =>
      match UnitShift(qty, u)
      case Err(e) => Err(e)
      case Ok(s) =>
        match Directed(s, d)
        case Err(e) => Err(e)
        case Ok(s') => Ok(ApplyShift(base, s', loc))
  }

  /** `Relative` with the folded article check. */
  function RelativeFolded(expr: string, base: Instant, loc: Location): (r: Result<Instant, Error>)
    ensures r.Ok? ==> r.value.loc == loc
    ensures Match(expr).None? <==> r == Err(UnsupportedExpression(expr))
  {
    match Match(expr)
    case None => Err(UnsupportedExpression(expr))
    case Some((q, u, d)) => InterpretFolded(q, u, d, base, loc)
  }

  /** The same, for the three groups of a match. */
  lemma InterpretFoldedAgrees(q: string, u: string, d: string, base: Instant, loc: Location)
    ensures InterpretFolded(q, u, d, base, loc) != Interpret(q, u, d, base, loc) <==>
      IsArticle(q) && q != "a" && q != "an"
    ensures InterpretFolded(q, u, d, base, loc) != Interpret(q, u, d, base, loc) ==>
      Interpret(q, u, d, base, loc) == Err(InvalidQuantity(q))
  {
    QuantityFoldedAgrees(q);
    if IsArticle(q) && q != "a" && q != "an" {
      assert Quantity("1") == Ok(1) by {
        assert Decimal.Value("1") == Decimal.Value("1"[..0]) * 10 + 1;
      }
      assert Interpret("1", u, d, base, loc) != Err(InvalidQuantity(q));
    }
  }

  /**
   * The folded reading and the code part only on a matched phrase whose
   * article is not all lower case, which the code rejects as an invalid
   * quantity and the folded reading takes as one.
   */
  lemma RelativeFoldedAgrees(expr: string, base: Instant, loc: Location)
    ensures RelativeFolded(expr, base, loc) != Relative(expr, base, loc) <==>
      Match(expr).Some? && IsArticle(Match(expr).value.0) && Match(expr).value.0 != "a" && Match(expr).value.0 != "an"
    ensures RelativeFolded(expr, base, loc) != Relative(expr, base, loc) ==>
      Relative(expr, base, loc) == Err(InvalidQuantity(Match(expr).value.0))
  {
    if Match(expr).Some? {
      var (q, u, d) := Match(expr).value;
      InterpretFoldedAgrees(q, u, d, base, loc);
    }
  }
}
