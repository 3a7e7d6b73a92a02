// Resolving any accepted value to an instant (parser.go).

module Parser {
  import opened Results
  import opened GoInt
  import opened GoTime
  import opened Types
  import FromUnix
  import FromString
  import NaturalLanguage
  import Skewing

  // ---- Options ----

  /** The options of `Parse`: `ParseWithLayout`, `ParseWithLocation` (a nil zone is `None`), `ParseWithBaseTime`, `ParseWithNaturalLanguage`. */
  datatype ParseSetting =
    | SetLayouts(layout: string, others: seq<string>)
    | SetLocation(loc: Option<Location>)
    | SetBaseTime(base: Instant)
    | SetNaturalLanguage(supported: bool)

  /** What a `ParseOption` holds: the options for the layout parser, whether natural language is on, and its options. */
  datatype ParseConfig = ParseConfig(
    stringOptions: seq<FromString.StringSetting>,
    supported: bool,
    languageOptions: seq<NaturalLanguage.LanguageOption>)

  /** One layout option per layout, in order. */
  function LayoutOptions(layouts: seq<string>): seq<FromString.StringSetting> {
    if layouts == [] then []
    else LayoutOptions(layouts[..|layouts| - 1]) + [FromString.WithLayouts([layouts[|layouts| - 1]])]
  }

  /** The effect of one option on the configuration. */
  function ApplySetting(c: ParseConfig, o: ParseSetting): ParseConfig {
    match o
    case SetLayouts(l, others) => c.(stringOptions := c.stringOptions + LayoutOptions([l] + others))
    case SetLocation(loc) =>
      c.(stringOptions := c.stringOptions + [FromString.WithLocation(loc)],
         languageOptions := c.languageOptions + [NaturalLanguage.InLocation(loc)])
    case SetBaseTime(b) => c.(languageOptions := c.languageOptions + [NaturalLanguage.BaseTime(b)])
    case SetNaturalLanguage(s) => c.(supported := s)
  }

  /** The options applied in order to an empty configuration. */
  function Configure(opts: seq<ParseSetting>): ParseConfig {
    if opts == [] then ParseConfig([], false, [])
    else ApplySetting(Configure(opts[..|opts| - 1]), opts[|opts| - 1])
  }

  /** `ParseOption`, the record the options update in place. */
  class ParseOption {
    var fromStringOptions: seq<FromString.StringSetting>
    var supported: bool
    var languageOptions: seq<NaturalLanguage.LanguageOption>

    function Config(): ParseConfig
      reads this
    {
      ParseConfig(fromStringOptions, supported, languageOptions)
    }

    /** `new(ParseOption)`: no options for either parser, natural language off. */
    constructor ()
      ensures Config() == ParseConfig([], false, [])
    {
      fromStringOptions := [];
      supported := false;
      languageOptions := [];
    }

    /** `ParseWithLayout(layout, others...)`: one layout option per layout, appended in argument order. */
    method ParseWithLayout(layout: string, others: seq<string>)
      modifies this
      ensures Config() == ApplySetting(old(Config()), SetLayouts(layout, others))
    {
      fromStringOptions := fromStringOptions + [FromString.WithLayouts([layout])];
      for i := 0 to |others|
        invariant fromStringOptions == old(fromStringOptions) + LayoutOptions([layout] + others[..i])
        invariant supported == old(supported) && languageOptions == old(languageOptions)
      {
        assert ([layout] + others[..i + 1])[..i + 1] == [layout] + others[..i];
        fromStringOptions := fromStringOptions + [FromString.WithLayouts([others[i]])];
      }
      assert others[..|others|] == others;
    }

    /** `ParseWithLocation(loc)`: the zone goes to both parsers. */
    method ParseWithLocation(loc: Option<Location>)
      modifies this
      ensures Config() == ApplySetting(old(Config()), SetLocation(loc))
    {
      fromStringOptions := fromStringOptions + [FromString.WithLocation(loc)];
      languageOptions := languageOptions + [NaturalLanguage.InLocation(loc)];
    }

    /** `ParseWithBaseTime(base)`: the base time goes to the natural-language parser only. */
    method ParseWithBaseTime(base: Instant)
      modifies this
      ensures Config() == ApplySetting(old(Config()), SetBaseTime(base))
    {
      languageOptions := languageOptions + [NaturalLanguage.BaseTime(base)];
    }

    /** `ParseWithNaturalLanguage(supported)`. */
    method ParseWithNaturalLanguage(enabled: bool)
      modifies this
      ensures Config() == ApplySetting(old(Config()), SetNaturalLanguage(enabled))
    {
      supported := enabled;
    }

    /** One option applied to this record. */
    method Apply(o: ParseSetting)
      modifies this
      ensures Config() == ApplySetting(old(Config()), o)
    {
      match o
      case SetLayouts(l, others) => ParseWithLayout(l, others);
      case SetLocation(loc) => ParseWithLocation(loc);
      case SetBaseTime(b) => ParseWithBaseTime(b);
      case SetNaturalLanguage(s) => ParseWithNaturalLanguage(s);
    }
  }

  /** A fresh `ParseOption` with the options applied in order. */
  method NewParseOption(opts: seq<ParseSetting>) returns (cnf: ParseOption)
    ensures fresh(cnf) && cnf.Config() == Configure(opts)
  {
    cnf := new ParseOption();
    for i := 0 to |opts|
      invariant cnf.Config() == Configure(opts[..i])
    {
      assert opts[..i + 1][..i] == opts[..i];
      cnf.Apply(opts[i]);
    }
    assert opts[..|opts|] == opts;
  }

  // ---- The dispatch ----

  /** An integer input holds a value of its own kind. */
  predicate ValidInput(v: TimeValue) {
    v.Integer? ==> FitsKind(v.kind, v.v)
  }

  /**
   * What `Parse` returns, as a possibly nil instant or an error.  `now` is the
   * clock read by `Parse`, `later` the one read by the natural-language
   * parser, `local` the local zone and `parse` Go's layout parser.
   */
  function Resolve(v: TimeValue, c: ParseConfig, now: Instant, later: Instant, local: Location,
                   parse: FromString.LayoutParser): (r: Result<Option<Instant>, Error>)
    requires ValidInput(v)
    ensures r.Err? ==> r.error.InvalidUnixTime? || r.error.InvalidTimeString?
    ensures r.Err? && r.error.InvalidUnixTime? ==> v.Integer?
  {
    match v
    case TimeVal(t) => Ok(Some(t))
    case TimePtr(p) => Ok(p)
    case Integer(kind, n) =>
      (match FromUnix.FromUnixTime(kind, n, local)
       case Ok(t) => Ok(Some(t))
       case Err(e) => Err(InvalidUnixTime(e)))
    case Text(s) =>
      if s == "now" then Ok(Some(now))
      else if s == "yesterday" then Ok(Some(Skewing.Yesterday(Value(now), now)))
      else if s == "tomorrow" then Ok(Some(Skewing.Tomorrow(Value(now), now)))
      else Textual(s, c, later, local, parse)
  }

  /** Any other string: the layouts first, then natural language when it is enabled. */
  function Textual(s: string, c: ParseConfig, later: Instant, local: Location,
                   parse: FromString.LayoutParser): (r: Result<Option<Instant>, Error>)
    ensures r.Err? ==> r.error.InvalidTimeString?
    ensures r.Err? && !c.supported ==> r.error == InvalidTimeString(CouldNotParse(s))
  {
    match FromString.FromStringSpec(s, c.stringOptions, local, parse)
    case Ok(t) => Ok(Some(t))
    case Err(e) =>
      if !c.supported then Err(InvalidTimeString(e))
      else
        match NaturalLanguage.FromNaturalLanguage(s, c.languageOptions, later)
        case Ok(t) => Ok(Some(t))
        case Err(e2) => Err(InvalidTimeString(e2))
  }

  /** `Parse(v, opts...)`. */
  method Parse(v: TimeValue, opts: seq<ParseSetting>, now: Instant, later: Instant, local: Location,
               parse: FromString.LayoutParser) returns (r: Result<Option<Instant>, Error>)
    requires ValidInput(v)
    ensures r == Resolve(v, Configure(opts), now, later, local, parse)
  {
    var cnf := NewParseOption(opts);
    match v
    case TimeVal(t) =>
      return Ok(Some(t));
    case TimePtr(p) =>
      return Ok(p);
    case Integer(kind, n) =>
      var t := FromUnix.FromUnixTime(kind, n, local);
      if t.Err? {
        return Err(InvalidUnixTime(t.error));
      }
      return Ok(Some(t.value));
    case Text(s) =>
      if s == "now" {
        return Ok(Some(now));
      } else if s == "yesterday" {
        return Ok(Some(Skewing.Yesterday(Value(now), now)));
      } else if s == "tomorrow" {
        return Ok(Some(Skewing.Tomorrow(Value(now), now)));
      }
      var parsed := FromString.FromStringFormat(s, cnf.fromStringOptions, local, parse);
      if parsed.Err? {
        if !cnf.supported {
          return Err(InvalidTimeString(parsed.error));
        }
        parsed := NaturalLanguage.FromNaturalLanguage(s, cnf.languageOptions, later);
        if parsed.Err? {
          return Err(InvalidTimeString(parsed.error));
        }
      }
      return Ok(Some(parsed.value));
  }

  // ---- Properties of the dispatch ----

  /** The strings that read the clock, compared exactly and case-sensitively. */
  predicate ClockWord(s: string) {
    s == "now" || s == "yesterday" || s == "tomorrow"
  }

  /**
   * A `time.Time` comes back unchanged, the zero time included, and a
   * pointer comes back as it is, even a nil one, with no error.
   */
  lemma TimesPassThrough(t: Instant, p: Option<Instant>, c: ParseConfig, now: Instant, later: Instant,
                         local: Location, parse: FromString.LayoutParser)
    ensures Resolve(TimeVal(t), c, now, later, local, parse) == Ok(Some(t))
    ensures Resolve(TimeVal(Zero), c, now, later, local, parse) == Ok(Some(Zero))
    ensures Resolve(TimePtr(p), c, now, later, local, parse) == Ok(p)
    ensures Resolve(TimePtr(None), c, now, later, local, parse) == Ok(None)
  {
  }

  /**
   * Integers are Unix times in the local zone: an `int64` is scaled by its
   * magnitude, every other kind is seconds, and only a `uint64` beyond the
   * `int64` range fails, with the error wrapped as an invalid Unix time.
   * The scaling is exact wherever the code's 64-bit products do not wrap.
   */
  lemma IntegersAreUnixTimes(kind: IntKind, n: int, c: ParseConfig, now: Instant, later: Instant,
                             local: Location, parse: FromString.LayoutParser)
    requires FitsKind(kind, n)
    requires kind == I64 && n > FromUnix.Micros15 && n <= FromUnix.Nanos18 ==> n * 1000 <= MaxInt64
    requires kind == I64 && n > FromUnix.Millis12 && n <= FromUnix.Micros15 ==> n * 1_000_000 <= MaxInt64
    ensures var r := Resolve(Integer(kind, n), c, now, later, local, parse);
      && (r.Err? <==> kind == U64 && n > MaxInt64)
      && (r.Err? ==> r.error == InvalidUnixTime(Uint64TooLarge(n)))
      && (kind == I64 ==> r == Ok(Some(Instant(n * FromUnix.Scale(n), local))))
      && (kind != I64 && r.Ok? ==> r == Ok(Some(Instant(Wrap(n) * NsPerSecond, local))))
  {
    FromUnix.FromUnixTimeAgrees(kind, n, local);
    FromUnix.FromUnixTimeExactSpec(kind, n, local);
  }

  /**
   * A millisecond timestamp whose nanosecond count leaves 64 bits wraps:
   * 10^13 milliseconds (the year 2286) is parsed as a time before 1970.
   */
  lemma LargeMillisecondsWrap(c: ParseConfig, now: Instant, later: Instant, local: Location,
                              parse: FromString.LayoutParser)
    ensures var r := Resolve(Integer(I64, 10_000_000_000_000), c, now, later, local, parse);
      r == Ok(Some(Instant(10_000_000_000_000_000_000 - TwoTo64, local))) && r.value.value.unixNano < 0
  {
    FromUnix.MillisecondsWrap(local);
  }

  /**
   * "now", "yesterday" and "tomorrow" are the clock and the clock moved by
   * 24 hours either way, whatever the options, so a configured base time
   * plays no part.
   */
  lemma ClockWords(c: ParseConfig, now: Instant, later: Instant, local: Location, parse: FromString.LayoutParser)
    ensures Resolve(Text("now"), c, now, later, local, parse) == Ok(Some(now))
    ensures Resolve(Text("yesterday"), c, now, later, local, parse) == Ok(Some(Instant(now.unixNano - NsPerDay, now.loc)))
    ensures Resolve(Text("tomorrow"), c, now, later, local, parse) == Ok(Some(Instant(now.unixNano + NsPerDay, now.loc)))
  {
  }

  /** A string the layouts read is returned as read, whether or not natural language is enabled. */
  lemma LayoutsFirst(s: string, c: ParseConfig, now: Instant, later: Instant, local: Location,
                     parse: FromString.LayoutParser)
    requires !ClockWord(s)
    requires FromString.FromStringSpec(s, c.stringOptions, local, parse).Ok?
    ensures Resolve(Text(s), c, now, later, local, parse)
            == Ok(Some(FromString.FromStringSpec(s, c.stringOptions, local, parse).value))
    ensures Resolve(Text(s), c.(supported := !c.supported), now, later, local, parse)
            == Resolve(Text(s), c, now, later, local, parse)
  {
  }

  /** Without natural language, a string no layout reads is an invalid time string wrapping the layout error. */
  lemma LayoutsOnly(s: string, c: ParseConfig, now: Instant, later: Instant, local: Location,
                    parse: FromString.LayoutParser)
    requires !ClockWord(s) && !c.supported
    requires FromString.FromStringSpec(s, c.stringOptions, local, parse).Err?
    ensures Resolve(Text(s), c, now, later, local, parse) == Err(InvalidTimeString(CouldNotParse(s)))
  {
    FromString.FromStringOutcome(s, c.stringOptions, local, parse);
  }

  /** The natural-language parser never reports the layout parser's error. */
  lemma LanguageErrors(s: string, opts: seq<NaturalLanguage.LanguageOption>, later: Instant)
    ensures var r := NaturalLanguage.FromNaturalLanguage(s, opts, later);
      r.Err? ==> !r.error.CouldNotParse?
  {
  }

  /**
   * With natural language enabled, a string no layout reads gets the
   * natural-language result; when that fails too, the error surfaced wraps
   * the natural-language error, never the layout error.
   */
  lemma LanguageFallback(s: string, c: ParseConfig, now: Instant, later: Instant, local: Location,
                         parse: FromString.LayoutParser)
    requires !ClockWord(s) && c.supported
    requires FromString.FromStringSpec(s, c.stringOptions, local, parse).Err?
    ensures var r, nl := Resolve(Text(s), c, now, later, local, parse),
                         NaturalLanguage.FromNaturalLanguage(s, c.languageOptions, later);
      && (nl.Ok? ==> r == Ok(Some(nl.value)))
      && (nl.Err? ==> r == Err(InvalidTimeString(nl.error)))
      && (r.Err? ==> r.error.InvalidTimeString? && !r.error.cause.CouldNotParse?)
  {
    LanguageErrors(s, c.languageOptions, later);
  }

  // ---- Properties of the options ----

  /** Options are applied one after the other. */
  lemma ConfigureSnoc(opts: seq<ParseSetting>, o: ParseSetting)
    ensures Configure(opts + [o]) == ApplySetting(Configure(opts), o)
  {
    assert (opts + [o])[..|opts|] == opts;
  }

  /**
   * `ParseWithLocation` as the last zone option: the layouts are read in that
   * zone (the local one for nil), and the natural-language parser gets it
   * as well.
   */
  lemma LocationFeedsBoth(opts: seq<ParseSetting>, loc: Option<Location>, local: Location)
    ensures var c := Configure(opts + [SetLocation(loc)]);
      && FromString.Zone(FromString.Configure(c.stringOptions), local) == (if loc.Some? then loc.value else local)
      && NaturalLanguage.Configure(c.languageOptions).loc == loc
  {
    ConfigureSnoc(opts, SetLocation(loc));
    var c := Configure(opts + [SetLocation(loc)]);
    FromString.LastLocationWins(c.stringOptions, |c.stringOptions| - 1, local);
    NaturalLanguage.LastLocationWins(c.languageOptions, |c.languageOptions| - 1);
  }

  /** `ParseWithBaseTime` reaches only the natural-language parser, which then uses it as its base. */
  lemma BaseTimeOnlyForLanguage(opts: seq<ParseSetting>, b: Instant, later: Instant)
    requires !IsZero(b)
    ensures var c0, c := Configure(opts), Configure(opts + [SetBaseTime(b)]);
      && c.stringOptions == c0.stringOptions && c.supported == c0.supported
      && NaturalLanguage.BaseOf(NaturalLanguage.Configure(c.languageOptions), later) == b
  {
    ConfigureSnoc(opts, SetBaseTime(b));
    var c := Configure(opts + [SetBaseTime(b)]);
    NaturalLanguage.LastBaseWins(c.languageOptions, |c.languageOptions| - 1, later);
  }

  /** Natural language is off unless a `ParseWithNaturalLanguage` option turns it on; the last one wins. */
  lemma {:induction false} LanguageSwitch(opts: seq<ParseSetting>)
    ensures Configure(opts).supported
            <==> exists i :: 0 <= i < |opts| && opts[i] == SetNaturalLanguage(true)
                             && forall j :: i < j < |opts| ==> !opts[j].SetNaturalLanguage?
    decreases |opts|
  {
    if opts != [] {
      var init, last := opts[..|opts| - 1], opts[|opts| - 1];
      LanguageSwitch(init);
      if Configure(opts).supported && !last.SetNaturalLanguage? {
        var i :| 0 <= i < |init| && init[i] == SetNaturalLanguage(true)
                 && forall j :: i < j < |init| ==> !init[j].SetNaturalLanguage?;
        assert opts[i] == init[i];
      }
      if !last.SetNaturalLanguage? {
        forall i | 0 <= i < |opts| - 1 && opts[i] == SetNaturalLanguage(true)
                   && forall j :: i < j < |opts| ==> !opts[j].SetNaturalLanguage?
          ensures Configure(init).supported
        {
          assert init[i] == opts[i];
          forall j | i < j < |init| ensures !init[j].SetNaturalLanguage? {
            assert init[j] == opts[j];
          }
        }
      }
    }
  }

  /** The layouts of every `ParseWithLayout` option, in the order given. */
  function Layouts(opts: seq<ParseSetting>): seq<string> {
    if opts == [] then []
    else Layouts(opts[..|opts| - 1])
         + (if opts[|opts| - 1].SetLayouts? then [opts[|opts| - 1].layout] + opts[|opts| - 1].others else [])
  }

  /** The layouts collected from a concatenation of layout-parser options. */
  lemma {:induction false} UserLayoutsAppend(a: seq<FromString.StringSetting>, b: seq<FromString.StringSetting>)
    ensures FromString.UserLayouts(a + b) == FromString.UserLayouts(a) + FromString.UserLayouts(b)
    decreases |b|
  {
    if b == [] {
      assert a + b == a;
    } else {
      var b' := b[..|b| - 1];
      assert (a + b)[..|a + b| - 1] == a + b';
      assert (a + b)[|a + b| - 1] == b[|b| - 1];
      UserLayoutsAppend(a, b');
    }
  }

  /** One layout option per layout collects those layouts in order. */
  lemma {:induction false} UserLayoutsOfOptions(ls: seq<string>)
    ensures FromString.UserLayouts(LayoutOptions(ls)) == ls
    decreases |ls|
  {
    if ls != [] {
      var init := ls[..|ls| - 1];
      UserLayoutsOfOptions(init);
      UserLayoutsAppend(LayoutOptions(init), [FromString.WithLayouts([ls[|ls| - 1]])]);
      assert [FromString.WithLayouts([ls[|ls| - 1]])][..0] == [];
      assert ls == init + [ls[|ls| - 1]];
    }
  }

  /** The layout options of `Parse` collect exactly the `ParseWithLayout` layouts, in order. */
  lemma {:induction false} CollectedLayouts(opts: seq<ParseSetting>)
    ensures FromString.UserLayouts(Configure(opts).stringOptions) == Layouts(opts)
    decreases |opts|
  {
    if opts != [] {
      var init, last := opts[..|opts| - 1], opts[|opts| - 1];
      CollectedLayouts(init);
      var before := Configure(init).stringOptions;
      match last
      case SetLayouts(l, others) =>
        UserLayoutsAppend(before, LayoutOptions([l] + others));
        UserLayoutsOfOptions([l] + others);
      case SetLocation(loc) =>
        UserLayoutsAppend(before, [FromString.WithLocation(loc)]);
        assert [FromString.WithLocation(loc)][..0] == [];
      case SetBaseTime(_) =>
      case SetNaturalLanguage(_) =>
    }
  }

  /**
   * The candidate layouts of a `Parse` call are the `ParseWithLayout`
   * layouts in argument and option order, ahead of the built-in ones.
   */
  lemma LayoutOrder(opts: seq<ParseSetting>)
    ensures FromString.Formats(FromString.Configure(Configure(opts).stringOptions))
            == Layouts(opts) + FromString.StringFormats
  {
    FromString.CandidateOrder(Configure(opts).stringOptions);
    CollectedLayouts(opts);
  }
}
