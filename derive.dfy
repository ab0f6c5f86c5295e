/**
  The three text parsers that turn a raw listing field into a typed value:
  `get_length_minutes` (a colon-separated duration), `get_published_time`
  (a phrase such as "3 days ago") and `get_views_count` (a text holding a
  view count). Times are integer microseconds; durations are whole seconds
  and view counts whole numbers, before the source's float division and
  rounding.
 */
module Derive {
  import opened Wrappers
  import opened Errors
  import opened Text

  // ---------------------------------------------------------------------------
  // get_length_minutes
  // ---------------------------------------------------------------------------

  /** Reads `parts` left to right with `t = 60 * t + int(u)`; the first part
      that is not a numeral stops the reading with its error. */
  function PartsSeconds(parts: seq<string>): Result<nat, Error>
    decreases |parts|
  {
    if parts == [] then Ok(0)
    else
      var last := parts[|parts| - 1];
      match PartsSeconds(parts[..|parts| - 1])
      case Err(e) => Err(e)
      case Ok(prev) =>
        match ParseNat(last)
        case None => Err(NotAnInteger(last))
        case Some(p) => Ok(60 * prev + p)
  }

  /** The base-60 value of `vs`, most significant first. */
  function BaseSixty(vs: seq<nat>): nat
  {
    if vs == [] then 0 else 60 * BaseSixty(vs[..|vs| - 1]) + vs[|vs| - 1]
  }

  lemma BaseSixtySnoc(vs: seq<nat>, v: nat)
    ensures BaseSixty(vs + [v]) == 60 * BaseSixty(vs) + v
  {
    assert (vs + [v])[..|vs|] == vs;
  }

  /** The total number of seconds `get_length_minutes(s)` divides by 60. */
  function DurationSeconds(s: string): Result<nat, Error>
  {
    PartsSeconds(Split(s, ':'))
  }

  predicate AllNumerals(parts: seq<string>) {
    forall i :: 0 <= i < |parts| ==> ParseNat(parts[i]).Some?
  }

  function NumeralValues(parts: seq<string>): (vs: seq<nat>)
    requires AllNumerals(parts)
    ensures |vs| == |parts|
    ensures forall i :: 0 <= i < |parts| ==> ParseNat(parts[i]) == Some(vs[i])
  {
    if parts == [] then []
    else NumeralValues(parts[..|parts| - 1]) + [ParseNat(parts[|parts| - 1]).value]
  }

  /** `get_length_minutes` before its division: the seconds, or the error of
      the first part `int` refuses. */
  method LengthSeconds(s: string) returns (r: Result<nat, Error>)
    ensures r == DurationSeconds(s)
  {
    r := ReadParts(Split(s, ':'));
  }

  /** The loop of `get_length_minutes` over the colon-separated parts. */
  method ReadParts(parts: seq<string>) returns (r: Result<nat, Error>)
    ensures r == PartsSeconds(parts)
  {
    var t: nat := 0;
    var i: nat := 0;
    while i < |parts|
      invariant i <= |parts|
      invariant PartsSeconds(parts[..i]) == Ok(t)
    {
      var u := ParseNat(parts[i]);
      if u.None? {
        PrefixStops(parts, i);
        return Err(NotAnInteger(parts[i]));
      }
      PrefixGrows(parts, i, t, u.value);
      t := 60 * t + u.value;
      i := i + 1;
    }
    assert parts[..i] == parts;
    r := Ok(t);
  }

  /** The loop's step: a numeral extends the reading of the prefix. */
  lemma PrefixGrows(parts: seq<string>, i: nat, t: nat, v: nat)
    requires i < |parts| && PartsSeconds(parts[..i]) == Ok(t) && ParseNat(parts[i]) == Some(v)
    ensures PartsSeconds(parts[..i + 1]) == Ok(60 * t + v)
  {
    assert parts[..i + 1] == parts[..i] + [parts[i]];
    PartsSecondsOk(parts[..i], parts[i], t, v);
  }

  /** The loop's exit: a part that is not a numeral is the error of the whole reading. */
  lemma PrefixStops(parts: seq<string>, i: nat)
    requires i < |parts| && PartsSeconds(parts[..i]).Ok? && ParseNat(parts[i]).None?
    ensures PartsSeconds(parts) == Err(NotAnInteger(parts[i]))
  {
    assert parts[..i + 1] == parts[..i] + [parts[i]];
    PartsSecondsBad(parts[..i], parts[i]);
    PrefixError(parts, i + 1);
  }

  /** Reading one more part after a successful prefix: `60 * t` plus its value. */
  lemma PartsSecondsOk(parts: seq<string>, p: string, t: nat, v: nat)
    requires PartsSeconds(parts) == Ok(t) && ParseNat(p) == Some(v)
    ensures PartsSeconds(parts + [p]) == Ok(60 * t + v)
  {
    assert (parts + [p])[..|parts|] == parts;
  }

  /** A part that is not a numeral after a successful prefix is the error. */
  lemma PartsSecondsBad(parts: seq<string>, p: string)
    requires PartsSeconds(parts).Ok? && ParseNat(p).None?
    ensures PartsSeconds(parts + [p]) == Err(NotAnInteger(p))
  {
    assert (parts + [p])[..|parts|] == parts;
  }

  /** A failed prefix stays failed. */
  lemma PartsSecondsErr(parts: seq<string>, p: string)
    requires PartsSeconds(parts).Err?
    ensures PartsSeconds(parts + [p]) == PartsSeconds(parts)
  {
    assert (parts + [p])[..|parts|] == parts;
  }

  /** Once a prefix fails, the whole reading fails with the same error. */
  lemma {:induction false} PrefixError(parts: seq<string>, k: nat)
    requires k <= |parts| && PartsSeconds(parts[..k]).Err?
    ensures PartsSeconds(parts) == PartsSeconds(parts[..k])
    decreases |parts|
  {
    if k < |parts| {
      var init := parts[..|parts| - 1];
      assert init[..k] == parts[..k];
      PrefixError(init, k);
    } else {
      assert parts[..k] == parts;
    }
  }

  /** The reading succeeds exactly when every part is a numeral, and then its
      value is the base-60 value of the parts. */
  lemma {:induction false} PartsSecondsValue(parts: seq<string>)
    ensures PartsSeconds(parts).Ok? <==> AllNumerals(parts)
    ensures AllNumerals(parts) ==> PartsSeconds(parts) == Ok(BaseSixty(NumeralValues(parts)))
    decreases |parts|
  {
    if parts != [] {
      var init := parts[..|parts| - 1];
      var last := parts[|parts| - 1];
      assert parts == init + [last];
      PartsSecondsValue(init);
      PartsSecondsValueStep(init, last);
    }
  }

  lemma PartsSecondsValueStep(init: seq<string>, last: string)
    requires PartsSeconds(init).Ok? <==> AllNumerals(init)
    requires AllNumerals(init) ==> PartsSeconds(init) == Ok(BaseSixty(NumeralValues(init)))
    ensures PartsSeconds(init + [last]).Ok? <==> AllNumerals(init + [last])
    ensures AllNumerals(init + [last]) ==>
              PartsSeconds(init + [last]) == Ok(BaseSixty(NumeralValues(init + [last])))
  {
    AllNumeralsSnoc(init, last);
    if !AllNumerals(init) {
      PartsSecondsErr(init, last);
    } else if ParseNat(last).None? {
      PartsSecondsBad(init, last);
    } else {
      PartsSecondsGood(init, last);
    }
  }

  lemma PartsSecondsGood(init: seq<string>, last: string)
    requires AllNumerals(init) && ParseNat(last).Some?
    requires PartsSeconds(init) == Ok(BaseSixty(NumeralValues(init)))
    ensures AllNumerals(init + [last])
    ensures PartsSeconds(init + [last]) == Ok(BaseSixty(NumeralValues(init + [last])))
  {
    var v := ParseNat(last).value;
    var h := BaseSixty(NumeralValues(init));
    NumeralValuesSnoc(init, last);
    BaseSixtySnoc(NumeralValues(init), v);
    assert BaseSixty(NumeralValues(init + [last])) == 60 * h + v;
    PartsSecondsOk(init, last, h, v);
  }

  lemma AllNumeralsSnoc(init: seq<string>, last: string)
    ensures AllNumerals(init + [last]) <==> AllNumerals(init) && ParseNat(last).Some?
  {
    var parts := init + [last];
    assert forall i :: 0 <= i < |init| ==> parts[i] == init[i];
    assert parts[|init|] == last;
  }

  lemma NumeralValuesSnoc(init: seq<string>, last: string)
    requires AllNumerals(init) && ParseNat(last).Some?
    ensures AllNumerals(init + [last])
    ensures NumeralValues(init + [last]) == NumeralValues(init) + [ParseNat(last).value]
  {
    AllNumeralsSnoc(init, last);
    assert (init + [last])[..|init|] == init;
  }

  /** The error names the first part that is not a numeral. */
  lemma {:induction false} PartsSecondsFirstError(parts: seq<string>, k: nat)
    requires k < |parts| && ParseNat(parts[k]).None?
    requires forall j :: 0 <= j < k ==> ParseNat(parts[j]).Some?
    ensures PartsSeconds(parts) == Err(NotAnInteger(parts[k]))
  {
    var pre := parts[..k];
    assert AllNumerals(pre) by {
      forall j | 0 <= j < |pre| ensures ParseNat(pre[j]).Some? {
        assert pre[j] == parts[j];
      }
    }
    PartsSecondsValue(pre);
    assert parts[..k + 1][..k] == pre;
    PrefixError(parts, k + 1);
  }

  /** One more trailing part `p` turns a duration of `t` seconds into `60 * t + p`. */
  lemma DurationAppend(s: string, t: nat, p: string, v: nat)
    requires DurationSeconds(s) == Ok(t) && ParseNat(p) == Some(v)
    ensures DurationSeconds(s + ":" + p) == Ok(60 * t + v)
  {
    NumeralHasNo(p, ':');
    SplitSnoc(s, p, ':');
    PartsSecondsOk(Split(s, ':'), p, t, v);
  }

  /** Joining numerals with colons and parsing gives their base-60 value. */
  lemma DurationOfJoin(parts: seq<string>)
    requires |parts| >= 1 && AllNumerals(parts)
    ensures DurationSeconds(Join(parts, ':')) == Ok(BaseSixty(NumeralValues(parts)))
  {
    forall i | 0 <= i < |parts| ensures ':' !in parts[i] {
      NumeralHasNo(parts[i], ':');
    }
    SplitJoin(parts, ':');
    PartsSecondsValue(parts);
  }

  /** A numeral holds no character other than digits. */
  lemma NumeralHasNo(p: string, c: char)
    requires ParseNat(p).Some? && !IsDigit(c)
    ensures c !in p
  {
    assert forall i :: 0 <= i < |p| ==> p[i] != c;
  }

  lemma MinutesSecondsParts()
    ensures DurationSeconds(Join(["5", "23"], ':')) == Ok(323)
  {
    assert ParseNat("5") == Some(5);
    assert ParseNat("23") == Some(23);
    TwoNumerals("5", "23");
    assert BaseSixty([5, 23]) == 323 by {
      BaseSixtySnoc([], 5);
      BaseSixtySnoc([5], 23);
    }
    DurationOfJoin(["5", "23"]);
  }

  lemma HoursMinutesSecondsParts()
    ensures DurationSeconds(Join(["1", "05", "30"], ':')) == Ok(3930)
  {
    ClockNumerals();
    ThreeNumerals("1", "05", "30");
    assert BaseSixty([1, 5, 30]) == 3930 by {
      BaseSixtySnoc([], 1);
      BaseSixtySnoc([1], 5);
      BaseSixtySnoc([1, 5], 30);
    }
    DurationOfJoin(["1", "05", "30"]);
  }

  lemma ClockNumerals()
    ensures ParseNat("1") == Some(1) && ParseNat("05") == Some(5) && ParseNat("30") == Some(30)
  {
    assert ParseNat("1") == Some(1);
    assert ParseNat("05") == Some(5);
    assert ParseNat("30") == Some(30);
  }

  lemma TwoNumerals(a: string, b: string)
    requires ParseNat(a).Some? && ParseNat(b).Some?
    ensures AllNumerals([a, b])
    ensures NumeralValues([a, b]) == [ParseNat(a).value, ParseNat(b).value]
  {
    NumeralValuesSnoc([a], b);
    assert [a] + [b] == [a, b];
  }

  lemma ThreeNumerals(a: string, b: string, c: string)
    requires ParseNat(a).Some? && ParseNat(b).Some? && ParseNat(c).Some?
    ensures AllNumerals([a, b, c])
    ensures NumeralValues([a, b, c]) == [ParseNat(a).value, ParseNat(b).value, ParseNat(c).value]
  {
    TwoNumerals(a, b);
    NumeralValuesSnoc([a, b], c);
    assert [a, b] + [c] == [a, b, c];
  }

  lemma DurationExamples()
    ensures DurationSeconds("5:23") == Ok(323)
    ensures DurationSeconds("1:05:30") == Ok(3930)
  {
    JoinedLiterals();
    MinutesSecondsParts();
    HoursMinutesSecondsParts();
  }

  lemma JoinedLiterals()
    ensures Join(["5", "23"], ':') == "5:23"
    ensures Join(["1", "05", "30"], ':') == "1:05:30"
  {
  }

  /** An empty part, trailing or alone, is refused as `int('')` refuses it. */
  lemma DurationEmptyPart()
    ensures DurationSeconds("5:") == Err(NotAnInteger(""))
    ensures DurationSeconds("") == Err(NotAnInteger(""))
  {
    assert ParseNat("5").Some?;
    SplitJoin(["5", ""], ':');
    assert Join(["5", ""], ':') == "5:";
    PartsSecondsFirstError(["5", ""], 1);
    PartsSecondsFirstError([""], 0);
  }

  // ---------------------------------------------------------------------------
  // get_published_time
  // ---------------------------------------------------------------------------

  /** The keyword arguments of `datetime.timedelta`, the source's `unit_list`. */
  datatype TimeUnit = Weeks | Days | Hours | Minutes | Seconds | Milliseconds | Microseconds

  function Keyword(u: TimeUnit): string
  {
    match u
    case Weeks => "weeks"
    case Days => "days"
    case Hours => "hours"
    case Minutes => "minutes"
    case Seconds => "seconds"
    case Milliseconds => "milliseconds"
    case Microseconds => "microseconds"
  }

  /** The singular word of a unit, which the source accepts by appending `s`. */
  function Singular(u: TimeUnit): (w: string)
    ensures w + "s" == Keyword(u)
  {
    match u
    case Weeks => "week"
    case Days => "day"
    case Hours => "hour"
    case Minutes => "minute"
    case Seconds => "second"
    case Milliseconds => "millisecond"
    case Microseconds => "microsecond"
  }

  function MicrosPer(u: TimeUnit): nat
  {
    match u
    case Weeks => 7 * MicrosPerDay
    case Days => MicrosPerDay
    case Hours => 3600000000
    case Minutes => 60000000
    case Seconds => 1000000
    case Milliseconds => 1000
    case Microseconds => 1
  }

  const MicrosPerDay: nat := 86400000000

  /** `word in unit_list`, answering which unit. */
  function UnitNamed(word: string): (r: Option<TimeUnit>)
    ensures r.Some? ==> Keyword(r.value) == word
  {
    if word == "weeks" then Some(Weeks)
    else if word == "days" then Some(Days)
    else if word == "hours" then Some(Hours)
    else if word == "minutes" then Some(Minutes)
    else if word == "seconds" then Some(Seconds)
    else if word == "milliseconds" then Some(Milliseconds)
    else if word == "microseconds" then Some(Microseconds)
    else None
  }

  /** How a unit word is read: a `timedelta` unit, 30-day months, 365-day
      years, or not at all. */
  datatype Period = Plain(unit: TimeUnit) | Months | Years | Unrecognised

  /** The `if`/`elif` chain of `get_published_time` on the unit word. */
  function Classify(word: string): Period
  {
    match UnitNamed(word)
    case Some(u) => Plain(u)
    case None =>
      match UnitNamed(word + "s")
      case Some(u) => Plain(u)
      case None =>
        if word in ["month", "months"] then Months
        else if word in ["year", "years"] then Years
        else Unrecognised
  }

  /** The length of `amount` periods, in microseconds. */
  function OffsetMicros(p: Period, amount: nat): nat
    requires !p.Unrecognised?
  {
    match p
    case Plain(u) => amount * MicrosPer(u)
    case Months => amount * 30 * MicrosPerDay
    case Years => amount * 365 * MicrosPerDay
  }

  /** `get_published_time(s)` with the clock read passed in as `now`: the
      second word is the unit, the first the amount, and the result is `now`
      minus that much time; text with fewer than two words fails at the index. */
  function PublishedTime(s: string, now: int): (r: Result<int, Error>)
    ensures r.Ok? ==> r.value <= now
  {
    var tokens := Words(s);
    if |tokens| < 2 then Err(TooFewWords(s))
    else TimeAgo(tokens[0], tokens[1], now)
  }

  /** `amount unit` before `now`; an unrecognised unit gives `now` itself
      without reading the amount. */
  function TimeAgo(amount: string, unit: string, now: int): (r: Result<int, Error>)
    ensures r.Ok? ==> r.value <= now
  {
    var period := Classify(unit);
    if period.Unrecognised? then Ok(now)
    else
      match ParseNat(amount)
      case None => Err(NotANumber(amount))
      case Some(a) => Ok(now - OffsetMicros(period, a))
  }

  /** Every unit is recognised under its plural keyword and under its singular. */
  lemma ClassifyUnit(u: TimeUnit)
    ensures Classify(Keyword(u)) == Plain(u)
    ensures Classify(Singular(u)) == Plain(u)
  {
    match u
    case Weeks =>
      Differ("week", "days", 0);
    case Days =>
    case Hours =>
      Differ("hours", "weeks", 0);
      Differ("hour", "days", 0);
    case Minutes =>
    case Seconds =>
      Differ("seconds", "minutes", 0);
    case Milliseconds =>
    case Microseconds =>
      Differ("microseconds", "milliseconds", 2);
  }

  /** `month(s)` are 30-day periods, `year(s)` 365-day ones, both with or without the `s`. */
  lemma ClassifyMonths()
    ensures Classify("month") == Months && Classify("months") == Months
  {
    Differ("month", "weeks", 0);
    Differ("month", "hours", 0);
    Differ("months" + "s", "minutes", 1);
    Differ("months" + "s", "seconds", 0);
  }

  lemma ClassifyYears()
    ensures Classify("year") == Years && Classify("years") == Years
  {
    Differ("year", "days", 0);
    Differ("year" + "s", "weeks", 0);
    Differ("year" + "s", "hours", 0);
    Differ("years", "weeks", 0);
    Differ("years", "hours", 0);
    Differ("years", "month", 0);
  }

  /** A word outside the list, such as `decade`, is not recognised. */
  lemma ClassifyDecade()
    ensures Classify("decade") == Unrecognised
  {
    Differ("decade" + "s", "minutes", 0);
    Differ("decade" + "s", "seconds", 0);
    Differ("decade", "months", 0);
  }

  /** A phrase of words `amount unit rest...` is read through its first two words. */
  lemma PublishedOfPhrase(amount: string, unit: string, rest: seq<string>, now: int)
    requires amount != [] && All(amount, NonSpace)
    requires unit != [] && All(unit, NonSpace)
    requires forall i :: 0 <= i < |rest| ==> rest[i] != [] && All(rest[i], NonSpace)
    ensures PublishedTime(Join([amount, unit] + rest, ' '), now) == TimeAgo(amount, unit, now)
  {
    var ws := [amount, unit] + rest;
    WordsOfPhrase(ws, amount, unit, rest);
    var s := Join(ws, ' ');
    assert Words(s) == ws;
    assert Words(s)[0] == amount && Words(s)[1] == unit;
  }

  /** Whatever whitespace stands before, between or after the words, the
      first word is the amount and the second the unit. */
  lemma PublishedOfSpaced(lead: string, ws: seq<string>, gaps: seq<string>, now: int)
    requires |ws| >= 2 && |gaps| == |ws|
    requires RunsIn(ws, NonSpace) && Separators(lead, gaps, NonSpace)
    ensures PublishedTime(Spaced(lead, ws, gaps), now) == TimeAgo(ws[0], ws[1], now)
  {
    RunsSpaced(lead, ws, gaps, NonSpace);
  }

  lemma WordsOfPhrase(ws: seq<string>, amount: string, unit: string, rest: seq<string>)
    requires ws == [amount, unit] + rest
    requires amount != [] && All(amount, NonSpace)
    requires unit != [] && All(unit, NonSpace)
    requires forall i :: 0 <= i < |rest| ==> rest[i] != [] && All(rest[i], NonSpace)
    ensures Words(Join(ws, ' ')) == ws
  {
    forall i | 0 <= i < |ws| ensures ws[i] != [] && All(ws[i], NonSpace) {
      if i >= 2 {
        assert ws[i] == rest[i - 2];
      }
    }
    assert !NonSpace.Has(' ');
    RunsJoin(ws, ' ', NonSpace);
  }

  /** An unrecognised unit gives `now` whatever the amount is, even when it is
      not a number. */
  lemma PublishedFallback(s: string, now: int)
    requires |Words(s)| >= 2 && Classify(Words(s)[1]) == Unrecognised
    ensures PublishedTime(s, now) == Ok(now)
  {
  }

  /** Text with fewer than two words fails at the index. */
  lemma PublishedTooShort(s: string, now: int)
    requires |Words(s)| < 2
    ensures PublishedTime(s, now) == Err(TooFewWords(s))
  {
  }

  /** The singular and the plural of a unit give the same time. */
  lemma PublishedSingularPlural(amount: string, u: TimeUnit, rest: seq<string>, now: int)
    requires amount != [] && All(amount, NonSpace)
    requires forall i :: 0 <= i < |rest| ==> rest[i] != [] && All(rest[i], NonSpace)
    ensures PublishedTime(Join([amount, Singular(u)] + rest, ' '), now) ==
            PublishedTime(Join([amount, Keyword(u)] + rest, ' '), now)
  {
    ClassifyUnit(u);
    KeywordNoSpace(u);
    PublishedOfPhrase(amount, Singular(u), rest, now);
    PublishedOfPhrase(amount, Keyword(u), rest, now);
    TimeAgoSameClass(amount, Singular(u), Keyword(u), now);
  }

  /** Two unit words read the same way give the same time. */
  lemma TimeAgoSameClass(amount: string, w1: string, w2: string, now: int)
    requires Classify(w1) == Classify(w2)
    ensures TimeAgo(amount, w1, now) == TimeAgo(amount, w2, now)
  {
  }

  lemma KeywordNoSpace(u: TimeUnit)
    ensures All(Keyword(u), NonSpace) && All(Singular(u), NonSpace)
  {
    VisibleWord(Keyword(u));
    VisibleWord(Singular(u));
  }

  /** `amount unit`, for a unit of the list written in the plural or the
      singular, lies `amount` of that unit before `now`. */
  lemma TimeAgoOfUnit(amount: string, n: nat, u: TimeUnit, now: int)
    requires ParseNat(amount) == Some(n)
    ensures TimeAgo(amount, Keyword(u), now) == Ok(now - n * MicrosPer(u))
    ensures TimeAgo(amount, Singular(u), now) == Ok(now - n * MicrosPer(u))
  {
    ClassifyUnit(u);
  }

  /** `amount month(s)` lies `amount` times 30 days before `now`. */
  lemma TimeAgoOfMonths(amount: string, n: nat, now: int)
    requires ParseNat(amount) == Some(n)
    ensures TimeAgo(amount, "month", now) == Ok(now - n * 30 * MicrosPerDay)
    ensures TimeAgo(amount, "months", now) == Ok(now - n * 30 * MicrosPerDay)
  {
    ClassifyMonths();
  }

  /** `amount year(s)` lies `amount` times 365 days before `now`. */
  lemma TimeAgoOfYears(amount: string, n: nat, now: int)
    requires ParseNat(amount) == Some(n)
    ensures TimeAgo(amount, "year", now) == Ok(now - n * 365 * MicrosPerDay)
    ensures TimeAgo(amount, "years", now) == Ok(now - n * 365 * MicrosPerDay)
  {
    ClassifyYears();
  }

  lemma SmallNumerals()
    ensures ParseNat("1") == Some(1) && ParseNat("2") == Some(2) && ParseNat("3") == Some(3)
  {
  }

  /** A three-word phrase `amount unit ago` in printable ASCII is read through
      its first two words. */
  lemma PublishedPhrase(amount: string, unit: string, now: int)
    requires amount != [] && forall i :: 0 <= i < |amount| ==> IsVisible(amount[i])
    requires unit != [] && forall i :: 0 <= i < |unit| ==> IsVisible(unit[i])
    ensures PublishedTime(amount + " " + unit + " ago", now) == TimeAgo(amount, unit, now)
  {
    VisibleWord(amount);
    VisibleWord(unit);
    VisibleWord("ago");
    JoinThree(amount, unit, "ago", ' ');
    assert [amount, unit, "ago"] == [amount, unit] + ["ago"];
    assert amount + " " + unit + " ago" == amount + [' '] + unit + [' '] + "ago";
    PublishedOfPhrase(amount, unit, ["ago"], now);
  }

  lemma JoinThree(a: string, b: string, c: string, sep: char)
    ensures Join([a, b, c], sep) == a + [sep] + b + [sep] + c
  {
    assert [a] + [b] == [a, b];
    assert [a, b] + [c] == [a, b, c];
    JoinSnoc([a], b, sep);
    JoinSnoc([a, b], c, sep);
  }

  lemma PublishedDaysExample(now: int)
    ensures PublishedTime("3 days ago", now) == Ok(now - 3 * MicrosPerDay)
  {
    assert "3" + " " + "days" + " ago" == "3 days ago";
    PublishedPhrase("3", "days", now);
    SmallNumerals();
    TimeAgoOfUnit("3", 3, Days, now);
  }

  lemma PublishedMonthExample(now: int)
    ensures PublishedTime("1 month ago", now) == Ok(now - 30 * MicrosPerDay)
  {
    assert "1" + " " + "month" + " ago" == "1 month ago";
    PublishedPhrase("1", "month", now);
    SmallNumerals();
    TimeAgoOfMonths("1", 1, now);
  }

  lemma PublishedYearsExample(now: int)
    ensures PublishedTime("2 years ago", now) == Ok(now - 730 * MicrosPerDay)
  {
    assert "2" + " " + "years" + " ago" == "2 years ago";
    PublishedPhrase("2", "years", now);
    SmallNumerals();
    TimeAgoOfYears("2", 2, now);
  }

  lemma PublishedDecadeExample(now: int)
    ensures PublishedTime("1 decade ago", now) == Ok(now)
  {
    assert "1" + " " + "decade" + " ago" == "1 decade ago";
    PublishedPhrase("1", "decade", now);
    ClassifyDecade();
  }

  // ---------------------------------------------------------------------------
  // get_views_count
  // ---------------------------------------------------------------------------

  /** `''.join(re.findall(r'(\d+)', s))` read as a number: the view count
      `get_views_count(s)` divides by one million. No digit at all leaves
      `float('')`, which fails. */
  function ViewsCount(s: string): Result<nat, Error>
  {
    var count := Concat(Runs(s, Digit));
    match ParseNat(count)
    case None => Err(NoDigits)
    case Some(n) => Ok(n)
  }

  /** The count is the number formed by the digits of `s` in order; it fails
      exactly when `s` has no digit. */
  lemma ViewsCountDigits(s: string)
    ensures ViewsCount(s).Err? <==> NoneOf(s, Digit)
    ensures ViewsCount(s).Ok? ==> ParseNat(Filter(s, Digit)) == Some(ViewsCount(s).value)
  {
    ConcatRuns(s, Digit);
    FilterEmpty(s, Digit);
  }

  /** Characters other than digits do not affect the count. */
  lemma ViewsCountIgnoresNonDigits(s: string)
    ensures ViewsCount(s) == ViewsCount(Filter(s, Digit))
  {
    ConcatRuns(s, Digit);
    ConcatRuns(Filter(s, Digit), Digit);
    FilterIdempotent(s, Digit);
  }

  /** A printed count followed by digit-free text reads back as that count. */
  lemma ViewsCountOfShown(n: nat, suffix: string)
    requires NoneOf(suffix, Digit)
    ensures ViewsCount(ShowNat(n) + suffix) == Ok(n)
  {
    var shown := ShowNat(n);
    var s := shown + suffix;
    ConcatRuns(s, Digit);
    FilterAppend(shown, suffix, Digit);
    FilterAll(shown, Digit);
    FilterEmpty(suffix, Digit);
    assert Concat(Runs(s, Digit)) == shown;
    ParseShowNat(n);
  }

  lemma ViewsCountExample()
    ensures ViewsCount("500 views") == Ok(500)
  {
    assert ShowNat(500) == "500";
    assert "500" + " views" == "500 views";
    ViewsCountOfShown(500, " views");
  }

  lemma GroupedViewsExample()
    ensures ViewsCount("1,234,567 views") == Ok(1234567)
  {
    GroupsJoined();
    ShownMillion();
    ViewsCountOfShown(1234567, " views");
  }

  lemma GroupsJoined()
    ensures ViewsCount("1,234,567 views") == ViewsCount("1234567" + " views")
  {
    assert "1,234,567 views" == "1" + "," + "234,567 views";
    ViewsCountSeparators("1", ",", "234,567 views");
    assert "1" + "234,567 views" == "1234" + "," + "567 views";
    ViewsCountSeparators("1234", ",", "567 views");
    assert "1234" + "567 views" == "1234567" + " views";
  }

  lemma ShownMillion()
    ensures ShowNat(1234567) == "1234567"
  {
    assert ShowNat(1234) == "1234";
  }

  /** An abbreviated count is read digit by digit: "1.2M views" counts 12. */
  lemma AbbreviatedViewsExample()
    ensures ViewsCount("1.2M views") == Ok(12)
  {
    assert "1.2M views" == "1" + "." + "2M views";
    ViewsCountSeparators("1", ".", "2M views");
    assert "1" + "2M views" == "12" + "M views";
    assert ShowNat(12) == "12";
    ViewsCountOfShown(12, "M views");
  }

  lemma NoViewsExample()
    ensures ViewsCount("No views") == Err(NoDigits)
  {
    ViewsCountDigits("No views");
  }

  /** Separators between digit groups ("1,234,567") are skipped: the count
      reads as if the digit groups were written together. */
  lemma ViewsCountSeparators(before: string, sep: string, after: string)
    requires NoneOf(sep, Digit)
    ensures ViewsCount(before + sep + after) == ViewsCount(before + after)
  {
    ViewsCountIgnoresNonDigits(before + sep + after);
    ViewsCountIgnoresNonDigits(before + after);
    FilterSkips(before, sep, after);
  }

  lemma FilterSkips(before: string, sep: string, after: string)
    requires NoneOf(sep, Digit)
    ensures Filter(before + sep + after, Digit) == Filter(before + after, Digit)
  {
    var front := before + sep;
    FilterAppend(front, after, Digit);
    FilterAppend(before, sep, Digit);
    FilterAppend(before, after, Digit);
    FilterEmpty(sep, Digit);
    assert Filter(front, Digit) == Filter(before, Digit);
  }
}
