// Reading a string with an ordered list of layouts (internal/parse/from_string.go).

module FromString {
  import opened Results
  import opened GoTime
  import opened Types

  /**
   * `time.ParseInLocation(layout, s, loc)`: the instant the layout reads from
   * the string in the zone, or `None` when it does not fit.  Go's layout
   * language itself is taken as given.
   */
  type LayoutParser = (string, string, Location) -> Option<Instant>

  // ---- The built-in layouts, in the order they are tried ----

  const StringFormats: seq<string> := [
    "01/02 03:04:05PM '06 -0700",            // time.Layout
    "Mon Jan _2 15:04:05 2006",              // time.ANSIC
    "Mon Jan _2 15:04:05 MST 2006",          // time.UnixDate
    "Mon Jan 02 15:04:05 -0700 2006",        // time.RubyDate
    "02 Jan 06 15:04 MST",                   // time.RFC822
    "02 Jan 06 15:04 -0700",                 // time.RFC822Z
    "Monday, 02-Jan-06 15:04:05 MST",        // time.RFC850
    "Mon, 02 Jan 2006 15:04:05 MST",         // time.RFC1123
    "Mon, 02 Jan 2006 15:04:05 -0700",       // time.RFC1123Z
    "2006-01-02T15:04:05Z07:00",             // time.RFC3339
    "2006-01-02T15:04:05.999999999Z07:00",   // time.RFC3339Nano
    "3:04PM",                                // time.Kitchen
    "Jan _2 15:04:05",                       // time.Stamp
    "Jan _2 15:04:05.000",                   // time.StampMilli
    "Jan _2 15:04:05.000000",                // time.StampMicro
    "Jan _2 15:04:05.000000000",             // time.StampNano
    "2006-01-02 15:04:05",                   // time.DateTime
    "2006-01-02",                            // time.DateOnly
    "15:04:05",                              // time.TimeOnly
    "Mon, 02 Jan 06 15:04:05 -0700",         // timelayout.RFC1036
    "Mon, 02 Jan 2006 15:04:05 MST",         // timelayout.RFC7231
    "2006-01-02T15:04:05-07:00",             // timelayout.ISO8601
    "2006-01-02T15:04:05Z",                  // timelayout.ISO8601Zulu
    "Monday, 02-Jan-2006 15:04:05 MST",      // timelayout.Cookie
    "2006/01/02"
  ]

  // ---- Options ----

  /** `WithFromStringLayout(layout, others...)` and `WithFromStringLocation(loc)` (a nil zone is `None`). */
  datatype StringSetting = WithLayouts(layouts: seq<string>) | WithLocation(loc: Option<Location>)

  /** `FromStringOption`: the user layouts collected so far and the last zone given. */
  datatype FromStringOption = FromStringOption(layouts: seq<string>, loc: Option<Location>)

  function ApplySetting(c: FromStringOption, o: StringSetting): FromStringOption {
    match o
    case WithLayouts(ls) => c.(layouts := c.layouts + ls)
    case WithLocation(l) => c.(loc := l)
  }

  /** The options applied in order to an empty configuration. */
  function Configure(opts: seq<StringSetting>): FromStringOption {
    if opts == [] then FromStringOption([], None)
    else ApplySetting(Configure(opts[..|opts| - 1]), opts[|opts| - 1])
  }

  /** The layouts of every layout option, in the order the options were given. */
  function UserLayouts(opts: seq<StringSetting>): seq<string> {
    if opts == [] then []
    else UserLayouts(opts[..|opts| - 1]) + (if opts[|opts| - 1].WithLayouts? then opts[|opts| - 1].layouts else [])
  }

  /** The candidate layouts: the user's ones, when there are any, ahead of the built-in ones. */
  function Formats(c: FromStringOption): seq<string> {
    if |c.layouts| > 0 then c.layouts + StringFormats else StringFormats
  }

  /** The zone the string is read in: the configured one, else the local zone. */
  function Zone(c: FromStringOption, local: Location): Location {
    if c.loc.Some? then c.loc.value else local
  }

  // ---- The search ----

  /** The position of the first layout that reads `s`, or the number of layouts when none does. */
  function FirstSuccess(formats: seq<string>, s: string, loc: Location, parse: LayoutParser): (i: nat)
    ensures i <= |formats|
    ensures forall j :: 0 <= j < i ==> parse(formats[j], s, loc).None?
    ensures i < |formats| ==> parse(formats[i], s, loc).Some?
  {
    if formats == [] then 0
    else if parse(formats[0], s, loc).Some? then 0
    else 1 + FirstSuccess(formats[1..], s, loc, parse)
  }

  /** The first candidate's reading of `s`, or an error naming the string when none reads it. */
  function Outcome(formats: seq<string>, s: string, loc: Location, parse: LayoutParser): Result<Instant, Error> {
    var i := FirstSuccess(formats, s, loc, parse);
    if i < |formats| then Ok(parse(formats[i], s, loc).value) else Err(CouldNotParse(s))
  }

  /** The result of `FromStringFormat`: the search over the configured candidates in the configured zone. */
  function FromStringSpec(s: string, opts: seq<StringSetting>, local: Location, parse: LayoutParser): (r: Result<Instant, Error>)
    ensures r.Err? ==> r == Err(CouldNotParse(s))
  {
    var c := Configure(opts);
    Outcome(Formats(c), s, Zone(c, local), parse)
  }

  /** `FromStringFormat`, with the local zone and `time.ParseInLocation` passed in. */
  method FromStringFormat(s: string, opts: seq<StringSetting>, local: Location, parse: LayoutParser)
    returns (r: Result<Instant, Error>)
    ensures r == FromStringSpec(s, opts, local, parse)
  {
    var cnf := Configure(opts);
    var formats := StringFormats;
    if |cnf.layouts| > 0 {
      formats := cnf.layouts + formats;
    }
    var loc := local;
    if cnf.loc.Some? {
      loc := cnf.loc.value;
    }
    r := TryFormats(formats, s, loc, parse);
  }

  /** The loop of `FromStringFormat`: the candidates are tried in order and the first reading is returned. */
  method TryFormats(formats: seq<string>, s: string, loc: Location, parse: LayoutParser)
    returns (r: Result<Instant, Error>)
    ensures r == Outcome(formats, s, loc, parse)
  {
    for k := 0 to |formats|
      invariant forall j :: 0 <= j < k ==> parse(formats[j], s, loc).None?
    {
      var t := parse(formats[k], s, loc);
      if t.Some? {
        FirstSuccessIs(formats, s, loc, parse, k);
        return Ok(t.value);
      }
    }
    FirstSuccessIs(formats, s, loc, parse, |formats|);
    return Err(CouldNotParse(s));
  }

  // ---- Properties ----

  /** The first success is pinned down by "all before fail, this one reads". */
  lemma {:induction false} FirstSuccessIs(formats: seq<string>, s: string, loc: Location, parse: LayoutParser, k: nat)
    requires k <= |formats|
    requires forall j :: 0 <= j < k ==> parse(formats[j], s, loc).None?
    requires k < |formats| ==> parse(formats[k], s, loc).Some?
    ensures FirstSuccess(formats, s, loc, parse) == k
    decreases |formats|
  {
    if formats != [] && k > 0 {
      assert parse(formats[0], s, loc).None?;
      var rest := formats[1..];
      forall j | 0 <= j < k - 1
        ensures parse(rest[j], s, loc).None?
      {
        assert rest[j] == formats[j + 1];
      }
      FirstSuccessIs(rest, s, loc, parse, k - 1);
    }
  }

  /** There are 25 built-in layouts, ending with the slash-separated date. */
  lemma BuiltInLayouts()
    ensures |StringFormats| == 25
    ensures StringFormats[0] == "01/02 03:04:05PM '06 -0700" && StringFormats[24] == "2006/01/02"
  {
  }

  /**
   * The candidates are the user layouts, in the order the options gave them,
   * followed by the built-in ones; without user layouts they are exactly the
   * built-in ones.
   */
  lemma {:induction false} CandidateOrder(opts: seq<StringSetting>)
    ensures Formats(Configure(opts)) == UserLayouts(opts) + StringFormats
    ensures UserLayouts(opts) == [] ==> Formats(Configure(opts)) == StringFormats
  {
    CollectedLayouts(opts);
  }

  /** The configuration collects exactly the user layouts. */
  lemma {:induction false} CollectedLayouts(opts: seq<StringSetting>)
    ensures Configure(opts).layouts == UserLayouts(opts)
    decreases |opts|
  {
    if opts != [] {
      CollectedLayouts(opts[..|opts| - 1]);
    }
  }

  /** The last zone option wins, even a nil one, which falls back to the local zone. */
  lemma {:induction false} LastLocationWins(opts: seq<StringSetting>, i: int, local: Location)
    requires 0 <= i < |opts| && opts[i].WithLocation?
    requires forall j :: i < j < |opts| ==> !opts[j].WithLocation?
    ensures Configure(opts).loc == opts[i].loc
    ensures Zone(Configure(opts), local) == if opts[i].loc.Some? then opts[i].loc.value else local
    decreases |opts|
  {
    if i < |opts| - 1 {
      var init := opts[..|opts| - 1];
      assert init[i] == opts[i];
      LastLocationWins(init, i, local);
    }
  }

  /** Without a zone option the string is read in the local zone. */
  lemma {:induction false} LocalByDefault(opts: seq<StringSetting>, local: Location)
    requires forall j :: 0 <= j < |opts| ==> !opts[j].WithLocation?
    ensures Configure(opts).loc == None && Zone(Configure(opts), local) == local
    decreases |opts|
  {
    if opts != [] {
      LocalByDefault(opts[..|opts| - 1], local);
    }
  }

  /**
   * The call succeeds exactly when some candidate reads the string, with the
   * reading of the first such candidate; otherwise it fails naming the string.
   */
  lemma FromStringOutcome(s: string, opts: seq<StringSetting>, local: Location, parse: LayoutParser)
    ensures var c := Configure(opts);
      var formats, loc, r := Formats(c), Zone(c, local), FromStringSpec(s, opts, local, parse);
      && (r.Err? <==> forall j :: 0 <= j < |formats| ==> parse(formats[j], s, loc).None?)
      && (r.Err? ==> r.error == CouldNotParse(s))
      && (r.Ok? ==> exists i :: 0 <= i < |formats| && parse(formats[i], s, loc) == Some(r.value)
                               && forall j :: 0 <= j < i ==> parse(formats[j], s, loc).None?)
  {
  }

  /**
   * Only the candidates up to the first one that reads the string are
   * consulted: two parsers that agree on those give the same result.
   */
  lemma OnlyPrefixConsulted(s: string, opts: seq<StringSetting>, local: Location, p: LayoutParser, q: LayoutParser, i: nat)
    requires var c := Configure(opts);
      var formats, loc := Formats(c), Zone(c, local);
      && i < |formats| && p(formats[i], s, loc).Some?
      && forall j :: 0 <= j <= i ==> p(formats[j], s, loc) == q(formats[j], s, loc)
    ensures FromStringSpec(s, opts, local, p) == FromStringSpec(s, opts, local, q)
  {
    var c := Configure(opts);
    var formats, loc := Formats(c), Zone(c, local);
    var k := FirstSuccess(formats, s, loc, p);
    FirstSuccessIs(formats, s, loc, q, k);
  }
}
