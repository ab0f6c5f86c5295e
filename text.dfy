/**
  The Python string built-ins the job's helpers are made of, over `string`
  (`seq<char>`): `s.split(sep)`, `s.split()`, `int(u)` on ASCII numerals,
  `re.findall(r'(\d+)', s)` with `''.join`, and the value of a decimal numeral.
  Each definition is paired with the operation that undoes it or with an
  independent description, and a lemma connects the two.
 */
module Text {
  import opened Wrappers

  predicate IsDigit(c: char) {
    '0' <= c <= '9'
  }

  /** Python's `str.isspace`: the separators `str.split()` uses when given no argument. */
  predicate IsSpace(c: char) {
    || c == ' '
    || '\t' <= c <= '\r'
    || '\U{1c}' <= c <= '\U{1f}'
    || c == '\U{85}' || c == '\U{a0}' || c == '\U{1680}'
    || '\U{2000}' <= c <= '\U{200a}'
    || c == '\U{2028}' || c == '\U{2029}' || c == '\U{202f}' || c == '\U{205f}'
    || c == '\U{3000}'
  }

  /** The two character classes the job splits text on: decimal digits
      (`\d`) and the characters `str.split()` keeps (anything but whitespace). */
  datatype CharClass = Digit | NonSpace
  {
    predicate Has(c: char) {
      match this
      case Digit => IsDigit(c)
      case NonSpace => !IsSpace(c)
    }
  }

  /** Two texts that differ at some position are different. */
  lemma Differ(a: string, b: string, i: nat)
    requires i < |a| && i < |b| && a[i] != b[i]
    ensures a != b
  {
  }

  /** Every character of `s` satisfies `p`. */
  predicate All(s: string, p: CharClass) {
    forall i :: 0 <= i < |s| ==> p.Has(s[i])
  }

  /** No character of `s` satisfies `p`. */
  predicate NoneOf(s: string, p: CharClass) {
    forall i :: 0 <= i < |s| ==> !p.Has(s[i])
  }

  /** Printable ASCII other than the space: the characters of a word. */
  predicate IsVisible(c: char) {
    '!' <= c <= '~'
  }

  lemma VisibleWord(s: string)
    requires forall i :: 0 <= i < |s| ==> IsVisible(s[i])
    ensures All(s, NonSpace)
  {
  }

  function DigitValue(c: char): (d: nat)
    requires IsDigit(c)
    ensures d < 10
  {
    c as int - '0' as int
  }

  function DigitChar(d: nat): (c: char)
    requires d < 10
    ensures IsDigit(c) && DigitValue(c) == d
  {
    ('0' as int + d) as char
  }

  // ---------------------------------------------------------------------------
  // Decimal numerals
  // ---------------------------------------------------------------------------

  /** The value of a string of decimal digits, most significant first: the
      accumulation `t = 10 * t + d` run over the digits from the left. */
  function Decimal(s: string): nat
    requires All(s, Digit)
  {
    if s == [] then 0 else 10 * Decimal(s[..|s| - 1]) + DigitValue(s[|s| - 1])
  }

  lemma DecimalSnoc(s: string, c: char)
    requires All(s, Digit) && IsDigit(c)
    ensures All(s + [c], Digit)
    ensures Decimal(s + [c]) == 10 * Decimal(s) + DigitValue(c)
  {
    assert (s + [c])[..|s|] == s;
  }

  /** Python's `int(u)` on ASCII text: a non-empty run of decimal digits is read
      in base 10, anything else fails. */
  function ParseNat(s: string): (r: Option<nat>)
    ensures r.Some? <==> s != [] && All(s, Digit)
  {
    if s != [] && All(s, Digit) then Some(Decimal(s)) else None
  }

  /** The decimal numeral of `n`, without leading zeros. */
  function ShowNat(n: nat): (s: string)
    ensures s != [] && All(s, Digit)
    decreases n
  {
    if n < 10 then [DigitChar(n)] else ShowNat(n / 10) + [DigitChar(n % 10)]
  }

  /** Reading back a printed number gives the number. */
  lemma {:induction false} ParseShowNat(n: nat)
    ensures ParseNat(ShowNat(n)) == Some(n)
    decreases n
  {
    if n < 10 {
      DecimalSnoc([], DigitChar(n));
      assert [] + [DigitChar(n)] == ShowNat(n);
    } else {
      ParseShowNat(n / 10);
      DecimalSnoc(ShowNat(n / 10), DigitChar(n % 10));
    }
  }

  // ---------------------------------------------------------------------------
  // s.split(sep) and sep.join(parts)
  // ---------------------------------------------------------------------------

  /** Python's `s.split(sep)` for a one-character `sep`: the pieces between the
      occurrences of `sep`, empty pieces included; `"".split(sep)` is `[""]`. */
  function Split(s: string, sep: char): (parts: seq<string>)
    ensures |parts| >= 1
    decreases |s|
  {
    if s == [] then [""]
    else
      var prev := Split(s[..|s| - 1], sep);
      var c := s[|s| - 1];
      if c == sep then prev + [""]
      else prev[..|prev| - 1] + [prev[|prev| - 1] + [c]]
  }

  /** Python's `sep.join(parts)`. */
  function Join(parts: seq<string>, sep: char): string
    requires |parts| >= 1
  {
    if |parts| == 1 then parts[0]
    else Join(parts[..|parts| - 1], sep) + [sep] + parts[|parts| - 1]
  }

  lemma JoinSnoc(parts: seq<string>, p: string, sep: char)
    requires |parts| >= 1
    ensures Join(parts + [p], sep) == Join(parts, sep) + [sep] + p
  {
    assert (parts + [p])[..|parts|] == parts;
  }

  /** One more separator and a piece without separators add one more part. */
  lemma {:induction false} SplitSnoc(s: string, p: string, sep: char)
    requires sep !in p
    ensures Split(s + [sep] + p, sep) == Split(s, sep) + [p]
    decreases |p|
  {
    if p == [] {
      assert (s + [sep] + p)[..|s|] == s;
    } else {
      var q := p[..|p| - 1];
      var c := p[|p| - 1];
      assert (s + [sep] + p)[..|s + [sep] + p| - 1] == s + [sep] + q;
      SplitSnoc(s, q, sep);
      assert q + [c] == p;
    }
  }

  /** Splitting a joined list of separator-free pieces gives the pieces back. */
  lemma {:induction false} SplitJoin(parts: seq<string>, sep: char)
    requires |parts| >= 1
    requires forall i :: 0 <= i < |parts| ==> sep !in parts[i]
    ensures Split(Join(parts, sep), sep) == parts
    decreases |parts|
  {
    if |parts| == 1 {
      SplitSnoc([], parts[0], sep);
      SplitOfFree(parts[0], sep);
    } else {
      var init := parts[..|parts| - 1];
      SplitJoin(init, sep);
      SplitSnoc(Join(init, sep), parts[|parts| - 1], sep);
      assert init + [parts[|parts| - 1]] == parts;
    }
  }

  /** A text without the separator is one part. */
  lemma {:induction false} SplitOfFree(s: string, sep: char)
    requires sep !in s
    ensures Split(s, sep) == [s]
    decreases |s|
  {
    if s != [] {
      SplitOfFree(s[..|s| - 1], sep);
      assert s[..|s| - 1] + [s[|s| - 1]] == s;
    }
  }

  /** Joining the parts of a split gives the text back. */
  lemma {:induction false} JoinSplit(s: string, sep: char)
    ensures Join(Split(s, sep), sep) == s
    decreases |s|
  {
    if s != [] {
      var init := s[..|s| - 1];
      var c := s[|s| - 1];
      assert s == init + [c];
      JoinSplit(init, sep);
      JoinSplitStep(init, c, sep);
    }
  }

  lemma JoinSplitStep(init: string, c: char, sep: char)
    requires Join(Split(init, sep), sep) == init
    ensures Join(Split(init + [c], sep), sep) == init + [c]
  {
    var prev := Split(init, sep);
    assert (init + [c])[..|init|] == init;
    if c == sep {
      JoinSnoc(prev, "", sep);
    } else if |prev| == 1 {
      assert prev[0] == init;
    } else {
      var front := prev[..|prev| - 1];
      var last := prev[|prev| - 1];
      assert front + [last] == prev;
      JoinSnoc(front, last, sep);
      JoinSnoc(front, last + [c], sep);
    }
  }

  // ---------------------------------------------------------------------------
  // Maximal runs: s.split() and re.findall(r'(\d+)', s)
  // ---------------------------------------------------------------------------

  /** The maximal runs of consecutive characters satisfying `inRun`, in order.
      `Runs(s, NonSpace)` is Python's `s.split()`; `Runs(s, Digit)` is
      `re.findall(r'(\d+)', s)` for ASCII digits. */
  function Runs(s: string, inRun: CharClass): seq<string>
    decreases |s|
  {
    if s == [] then []
    else
      var init := s[..|s| - 1];
      var c := s[|s| - 1];
      var prev := Runs(init, inRun);
      if !inRun.Has(c) then prev
      else if init != [] && inRun.Has(init[|init| - 1]) then
        prev[..|prev| - 1] + [prev[|prev| - 1] + [c]]
      else prev + [[c]]
  }

  /** Every run is non-empty and made only of characters in the class. */
  lemma {:induction false} RunsShape(s: string, inRun: CharClass)
    ensures RunsIn(Runs(s, inRun), inRun)
    decreases |s|
  {
    if s != [] {
      var init := s[..|s| - 1];
      var c := s[|s| - 1];
      assert init + [c] == s;
      RunsShape(init, inRun);
      RunsSnoc(init, c, inRun);
      var prev := Runs(init, inRun);
      if inRun.Has(c) {
        if init != [] && inRun.Has(init[|init| - 1]) {
          RunsExtend(prev, c, inRun);
        } else {
          RunsAppend(prev, c, inRun);
        }
      }
    }
  }

  predicate RunsIn(runs: seq<string>, inRun: CharClass) {
    forall i :: 0 <= i < |runs| ==> runs[i] != [] && All(runs[i], inRun)
  }

  lemma RunsExtend(runs: seq<string>, c: char, inRun: CharClass)
    requires RunsIn(runs, inRun) && |runs| > 0 && inRun.Has(c)
    ensures RunsIn(runs[..|runs| - 1] + [runs[|runs| - 1] + [c]], inRun)
  {
    var w := runs[|runs| - 1];
    assert All(w, inRun);
    assert All(w + [c], inRun);
  }

  lemma RunsAppend(runs: seq<string>, c: char, inRun: CharClass)
    requires RunsIn(runs, inRun) && inRun.Has(c)
    ensures RunsIn(runs + [[c]], inRun)
  {
  }

  /** Python's `s.split()`: the whitespace-separated words of `s`. */
  function Words(s: string): seq<string>
  {
    Runs(s, NonSpace)
  }

  /** One more character either ends nothing, extends the last run or starts a new one. */
  lemma RunsSnoc(s: string, c: char, inRun: CharClass)
    ensures Runs(s + [c], inRun) ==
              var prev := Runs(s, inRun);
              if !inRun.Has(c) then prev
              else if s != [] && inRun.Has(s[|s| - 1]) then prev[..|prev| - 1] + [prev[|prev| - 1] + [c]]
              else prev + [[c]]
  {
    assert (s + [c])[..|s|] == s;
  }

  /** A run that starts at a run boundary is appended whole. */
  lemma {:induction false} RunsAfter(s: string, w: string, inRun: CharClass)
    requires s == [] || !inRun.Has(s[|s| - 1])
    requires w != [] && All(w, inRun)
    ensures Runs(s + w, inRun) == Runs(s, inRun) + [w]
    decreases |w|
  {
    if |w| == 1 {
      assert w == [w[0]];
      RunsSnoc(s, w[0], inRun);
    } else {
      var v := w[..|w| - 1];
      var c := w[|w| - 1];
      assert w == v + [c];
      assert All(v, inRun);
      RunsAfter(s, v, inRun);
      RunsAfterStep(s, v, c, inRun);
    }
  }

  lemma RunsAfterStep(s: string, v: string, c: char, inRun: CharClass)
    requires v != [] && inRun.Has(v[|v| - 1]) && inRun.Has(c)
    requires Runs(s + v, inRun) == Runs(s, inRun) + [v]
    ensures Runs(s + (v + [c]), inRun) == Runs(s, inRun) + [v + [c]]
  {
    var sv := s + v;
    assert s + (v + [c]) == sv + [c];
    assert sv[|sv| - 1] == v[|v| - 1];
    RunsSnoc(sv, c, inRun);
    var prev := Runs(s, inRun) + [v];
    assert prev[..|prev| - 1] == Runs(s, inRun);
  }

  /** Splitting words joined by a separator character gives the words back. */
  lemma {:induction false} RunsJoin(ws: seq<string>, sep: char, inRun: CharClass)
    requires |ws| >= 1 && !inRun.Has(sep)
    requires forall i :: 0 <= i < |ws| ==> ws[i] != [] && All(ws[i], inRun)
    ensures Runs(Join(ws, sep), inRun) == ws
    decreases |ws|
  {
    var last := ws[|ws| - 1];
    assert last != [] && All(last, inRun);
    if |ws| == 1 {
      RunsAfter([], last, inRun);
      assert [] + last == last;
      assert [last] == ws;
    } else {
      var init := ws[..|ws| - 1];
      assert init + [last] == ws;
      forall i | 0 <= i < |init|
        ensures init[i] != [] && All(init[i], inRun)
      {
        assert init[i] == ws[i];
      }
      RunsJoin(init, sep, inRun);
      RunsJoinStep(init, last, sep, inRun);
    }
  }

  lemma RunsJoinStep(ws: seq<string>, w: string, sep: char, inRun: CharClass)
    requires |ws| >= 1 && !inRun.Has(sep)
    requires Runs(Join(ws, sep), inRun) == ws
    requires w != [] && All(w, inRun)
    ensures Runs(Join(ws + [w], sep), inRun) == ws + [w]
  {
    JoinSnoc(ws, w, sep);
    var prefix := Join(ws, sep) + [sep];
    RunsSnoc(Join(ws, sep), sep, inRun);
    RunsAfter(prefix, w, inRun);
  }

  /** Characters outside the class never start or extend a run. */
  lemma {:induction false} RunsSkip(s: string, g: string, inRun: CharClass)
    requires NoneOf(g, inRun)
    ensures Runs(s + g, inRun) == Runs(s, inRun)
    decreases |g|
  {
    if g == [] {
      assert s + g == s;
    } else {
      var v := g[..|g| - 1];
      var c := g[|g| - 1];
      assert g == v + [c];
      assert s + g == (s + v) + [c];
      assert !inRun.Has(g[|g| - 1]);
      RunsSkip(s, v, inRun);
      RunsSnoc(s + v, c, inRun);
    }
  }

  /** `lead`, then each word followed by its gap: a text laid out as words
      with arbitrary separators between, before and after them. */
  function Spaced(lead: string, ws: seq<string>, gaps: seq<string>): string
    requires |gaps| == |ws|
    decreases |ws|
  {
    if ws == [] then lead
    else Spaced(lead, ws[..|ws| - 1], gaps[..|gaps| - 1]) + ws[|ws| - 1] + gaps[|gaps| - 1]
  }

  /** The separators of a layout: no character of the class anywhere, and
      at least one character between two words. */
  predicate Separators(lead: string, gaps: seq<string>, inRun: CharClass) {
    && NoneOf(lead, inRun)
    && (forall i :: 0 <= i < |gaps| ==> NoneOf(gaps[i], inRun))
    && (forall i :: 0 <= i < |gaps| - 1 ==> gaps[i] != [])
  }

  /** The runs of a text are exactly its words, however many separator
      characters stand between them and whatever separators lead or trail:
      `"  a \t b  ".split()` is `["a", "b"]`. */
  lemma {:induction false} RunsSpaced(lead: string, ws: seq<string>, gaps: seq<string>, inRun: CharClass)
    requires |gaps| == |ws| && RunsIn(ws, inRun) && Separators(lead, gaps, inRun)
    ensures Runs(Spaced(lead, ws, gaps), inRun) == ws
    decreases |ws|
  {
    if ws == [] {
      RunsSkip([], lead, inRun);
      assert [] + lead == lead;
    } else {
      var n := |ws|;
      var init, gi := ws[..n - 1], gaps[..n - 1];
      assert RunsIn(init, inRun) by {
        forall i | 0 <= i < |init| ensures init[i] != [] && All(init[i], inRun) {
          assert init[i] == ws[i];
        }
      }
      assert Separators(lead, gi, inRun) by {
        forall i | 0 <= i < |gi| ensures gi[i] != [] && NoneOf(gi[i], inRun) {
          assert gi[i] == gaps[i];
        }
      }
      RunsSpaced(lead, init, gi, inRun);
      SpacedEnd(lead, init, gi, inRun);
      assert ws == init + [ws[n - 1]] && gaps == gi + [gaps[n - 1]];
      RunsSpacedStep(lead, init, gi, ws[n - 1], gaps[n - 1], inRun);
    }
  }

  lemma RunsSpacedStep(lead: string, ws: seq<string>, gaps: seq<string>, w: string, g: string, inRun: CharClass)
    requires |gaps| == |ws| && Runs(Spaced(lead, ws, gaps), inRun) == ws
    requires var s := Spaced(lead, ws, gaps); s == [] || !inRun.Has(s[|s| - 1])
    requires w != [] && All(w, inRun) && NoneOf(g, inRun)
    ensures Runs(Spaced(lead, ws + [w], gaps + [g]), inRun) == ws + [w]
  {
    var prefix := Spaced(lead, ws, gaps);
    assert (ws + [w])[..|ws|] == ws && (gaps + [g])[..|gaps|] == gaps;
    assert Spaced(lead, ws + [w], gaps + [g]) == (prefix + w) + g;
    RunsAfter(prefix, w, inRun);
    RunsSkip(prefix + w, g, inRun);
  }

  /** A layout whose every gap is non-empty ends at a run boundary. */
  lemma SpacedEnd(lead: string, ws: seq<string>, gaps: seq<string>, inRun: CharClass)
    requires |gaps| == |ws| && NoneOf(lead, inRun)
    requires forall i :: 0 <= i < |gaps| ==> gaps[i] != [] && NoneOf(gaps[i], inRun)
    ensures var s := Spaced(lead, ws, gaps); s == [] || !inRun.Has(s[|s| - 1])
  {
    if ws == [] {
      if lead != [] {
        assert !inRun.Has(lead[|lead| - 1]);
      }
    } else {
      var g := gaps[|gaps| - 1];
      var s := Spaced(lead, ws, gaps);
      assert g != [] && !inRun.Has(g[|g| - 1]);
      assert s[|s| - 1] == g[|g| - 1];
    }
  }

  /** The characters of `s` that satisfy `p`, in order. */
  function Filter(s: string, p: CharClass): (r: string)
    ensures All(r, p)
    decreases |s|
  {
    if s == [] then []
    else Filter(s[..|s| - 1], p) + (if p.Has(s[|s| - 1]) then [s[|s| - 1]] else [])
  }

  /** Python's `''.join(strings)`. */
  function Concat(ss: seq<string>): string
  {
    if ss == [] then [] else Concat(ss[..|ss| - 1]) + ss[|ss| - 1]
  }

  lemma ConcatSnoc(ss: seq<string>, x: string)
    ensures Concat(ss + [x]) == Concat(ss) + x
  {
    assert (ss + [x])[..|ss|] == ss;
  }

  /** Gluing the runs back together keeps exactly the characters in runs. */
  lemma {:induction false} ConcatRuns(s: string, p: CharClass)
    ensures Concat(Runs(s, p)) == Filter(s, p)
    decreases |s|
  {
    if s != [] {
      var init := s[..|s| - 1];
      var c := s[|s| - 1];
      var prev := Runs(init, p);
      assert init + [c] == s;
      RunsSnoc(init, c, p);
      ConcatRuns(init, p);
      assert Filter(s, p) == Filter(init, p) + (if p.Has(c) then [c] else []);
      if !p.Has(c) {
        assert Runs(s, p) == prev;
      } else if init != [] && p.Has(init[|init| - 1]) {
        var front := prev[..|prev| - 1];
        var last := prev[|prev| - 1];
        assert Runs(s, p) == front + [last + [c]];
        assert front + [last] == prev;
        ConcatSnoc(front, last);
        ConcatSnoc(front, last + [c]);
      } else {
        assert Runs(s, p) == prev + [[c]];
        ConcatSnoc(prev, [c]);
      }
    }
  }

  lemma {:induction false} FilterAppend(a: string, b: string, p: CharClass)
    ensures Filter(a + b, p) == Filter(a, p) + Filter(b, p)
    decreases |b|
  {
    if b != [] {
      var ab := a + b;
      assert ab[..|ab| - 1] == a + b[..|b| - 1];
      FilterAppend(a, b[..|b| - 1], p);
    } else {
      assert a + b == a;
    }
  }

  /** The filter is empty exactly when no character satisfies the predicate. */
  lemma {:induction false} FilterEmpty(s: string, p: CharClass)
    ensures Filter(s, p) == [] <==> NoneOf(s, p)
    decreases |s|
  {
    if s != [] {
      FilterEmpty(s[..|s| - 1], p);
      assert forall i :: 0 <= i < |s| - 1 ==> s[..|s| - 1][i] == s[i];
    }
  }

  /** Text made only of satisfying characters is its own filter. */
  lemma {:induction false} FilterAll(s: string, p: CharClass)
    requires All(s, p)
    ensures Filter(s, p) == s
    decreases |s|
  {
    if s != [] {
      FilterAll(s[..|s| - 1], p);
      assert s[..|s| - 1] + [s[|s| - 1]] == s;
    }
  }

  lemma {:induction false} FilterIdempotent(s: string, p: CharClass)
    ensures Filter(Filter(s, p), p) == Filter(s, p)
  {
    FilterAll(Filter(s, p), p);
  }
}
