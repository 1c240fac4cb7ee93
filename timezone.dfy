/**
 * `ParseTimezone` of package ctime: a trimmed timezone descriptor is either a
 * location name that the timezone database knows, the literal "UTC", or a
 * whole-hour offset written "UTC+N" / "UTC-N" with one or two digits; anything
 * else falls back to UTC. The database lookup (`time.LoadLocation`) is a
 * parameter of the model.
 */
module Timezone {
  import opened Wrappers

  /** The location `ParseTimezone` returns; `L` stands for a location the database loaded. */
  datatype Zone<L> = Loaded(loc: L) | UTC | Fixed(name: string, offset: int)

  const SecondsPerHour: int := 3600

  // ---------------------------------------------------------------------------
  // strings.TrimSpace
  // ---------------------------------------------------------------------------

  /** `unicode.IsSpace`: the ASCII spaces, NEL, NBSP and the other Unicode White_Space characters. */
  predicate IsSpace(c: char) {
    c == '\t' || c == '\n' || c == '\U{000B}' || c == '\U{000C}' || c == '\r' || c == ' '
    || c == '\U{0085}' || c == '\U{00A0}' || c == '\U{1680}'
    || ('\U{2000}' <= c <= '\U{200A}')
    || c == '\U{2028}' || c == '\U{2029}' || c == '\U{202F}' || c == '\U{205F}' || c == '\U{3000}'
  }

  /** Whether every character of `s` is white space. */
  predicate AllSpace(s: string) {
    forall i | 0 <= i < |s| :: IsSpace(s[i])
  }

  /** `s` without its leading white space. */
  function TrimLeft(s: string): (r: string) {
    if |s| > 0 && IsSpace(s[0]) then TrimLeft(s[1..]) else s
  }

  /** `s` without its trailing white space. */
  function TrimRight(s: string): (r: string) {
    if |s| > 0 && IsSpace(s[|s| - 1]) then TrimRight(s[..|s| - 1]) else s
  }

  /** `TrimLeft` keeps the longest suffix that starts with a non-space: everything dropped is white space. */
  lemma {:induction false} TrimLeftShape(s: string)
    ensures var r := TrimLeft(s);
            && |r| <= |s| && r == s[|s| - |r|..]
            && (r == [] || !IsSpace(r[0]))
            && AllSpace(s[..|s| - |r|])
  {
    if |s| > 0 && IsSpace(s[0]) {
      TrimLeftShape(s[1..]);
      var r := TrimLeft(s);
      assert s[1..][..|s| - 1 - |r|] == s[1..|s| - |r|];
    }
  }

  /** `TrimRight` keeps the longest prefix that ends with a non-space: everything dropped is white space. */
  lemma {:induction false} TrimRightShape(s: string)
    ensures var r := TrimRight(s);
            && |r| <= |s| && r == s[..|r|]
            && (r == [] || !IsSpace(r[|r| - 1]))
            && AllSpace(s[|r|..])
  {
    if |s| > 0 && IsSpace(s[|s| - 1]) {
      TrimRightShape(s[..|s| - 1]);
    }
  }

  /**
   * `strings.TrimSpace`: `s` without leading and trailing white space; what is
   * left is no longer than `s` and neither starts nor ends with white space.
   */
  function TrimSpace(s: string): (r: string)
    ensures |r| <= |s|
    ensures r == [] || (!IsSpace(r[0]) && !IsSpace(r[|r| - 1]))
  {
    TrimLeftShape(s);
    TrimRightShape(TrimLeft(s));
    TrimRight(TrimLeft(s))
  }

  /**
   * `TrimSpace` drops only white space, from both ends, and what it keeps
   * neither starts nor ends with white space.
   */
  lemma TrimSpaceShape(s: string)
    ensures var r := TrimSpace(s);
            && (r == [] || (!IsSpace(r[0]) && !IsSpace(r[|r| - 1])))
            && exists i | 0 <= i <= |s| - |r| :: s[i..i + |r|] == r && AllSpace(s[..i]) && AllSpace(s[i + |r|..])
  {
    var l := TrimLeft(s);
    TrimLeftShape(s);
    TrimRightShape(l);
    var r := TrimRight(l);
    var i := |s| - |l|;
    assert s[i..i + |r|] == r;
    assert AllSpace(s[i + |r|..]) by {
      assert s[i + |r|..] == l[|r|..];
    }
  }

  /** Leading white space does not change what `TrimLeft` keeps. */
  lemma {:induction false} TrimLeftPadding(p: string, s: string)
    requires AllSpace(p)
    ensures TrimLeft(p + s) == TrimLeft(s)
  {
    if |p| > 0 {
      assert (p + s)[0] == p[0];
      assert (p + s)[1..] == p[1..] + s;
      TrimLeftPadding(p[1..], s);
    } else {
      assert p + s == s;
    }
  }

  /** Trailing white space does not change what `TrimRight` keeps. */
  lemma {:induction false} TrimRightPadding(s: string, q: string)
    requires AllSpace(q)
    ensures TrimRight(s + q) == TrimRight(s)
  {
    if |q| > 0 {
      assert (s + q)[|s + q| - 1] == q[|q| - 1];
      assert (s + q)[..|s + q| - 1] == s + q[..|q| - 1];
      TrimRightPadding(s, q[..|q| - 1]);
    } else {
      assert s + q == s;
    }
  }

  /** Trailing text after a non-space start is kept by `TrimLeft` as it is. */
  lemma {:induction false} TrimLeftAppend(s: string, q: string)
    requires exists i | 0 <= i < |s| :: !IsSpace(s[i])
    ensures TrimLeft(s + q) == TrimLeft(s) + q
  {
    if IsSpace(s[0]) {
      assert (s + q)[1..] == s[1..] + q;
      var i :| 0 <= i < |s| && !IsSpace(s[i]);
      assert s[1..][i - 1] == s[i];
      TrimLeftAppend(s[1..], q);
    }
  }

  /** White space around a descriptor is ignored: `TrimSpace(p + s + q) == TrimSpace(s)`. */
  lemma TrimSpacePadding(p: string, s: string, q: string)
    requires AllSpace(p) && AllSpace(q)
    ensures TrimSpace(p + s + q) == TrimSpace(s)
  {
    assert p + s + q == p + (s + q);
    TrimLeftPadding(p, s + q);
    if exists i | 0 <= i < |s| :: !IsSpace(s[i]) {
      TrimLeftAppend(s, q);
      TrimRightPadding(TrimLeft(s), q);
    } else {
      assert AllSpace(s + q);
      TrimLeftPadding(s + q, []);
      TrimLeftPadding(s, []);
      assert s + q + [] == s + q && s + [] == s;
    }
  }

  /** A string with no white space at either end is its own `TrimSpace`. */
  lemma TrimSpaceOfTrimmed(s: string)
    requires s == [] || (!IsSpace(s[0]) && !IsSpace(s[|s| - 1]))
    ensures TrimSpace(s) == s
  {
  }

  // ---------------------------------------------------------------------------
  // Decimal digits and strconv.Atoi
  // ---------------------------------------------------------------------------

  /** An ASCII decimal digit, the class `[0-9]`. */
  predicate IsDigit(c: char) {
    '0' <= c <= '9'
  }

  predicate AllDigits(s: string) {
    forall i | 0 <= i < |s| :: IsDigit(s[i])
  }

  function Pow10(n: nat): (p: nat)
    ensures p >= 1
  {
    if n == 0 then 1 else 10 * Pow10(n - 1)
  }

  /** The value of a string of decimal digits, most significant first. */
  function DigitsValue(s: string): (v: nat)
    requires AllDigits(s)
    ensures v < Pow10(|s|)
  {
    if |s| == 0 then 0
    else
      var d := (s[|s| - 1] as int) - ('0' as int);
      DigitsValue(s[..|s| - 1]) * 10 + d
  }

  /** The decimal rendering of `n`, without leading zeros. */
  function Decimal(n: nat): (s: string)
    ensures |s| > 0 && AllDigits(s)
    ensures n < 10 <==> |s| == 1
  {
    var last := [(('0' as int) + n % 10) as char];
    if n < 10 then last else Decimal(n / 10) + last
  }

  /** Reading back a decimal rendering gives the number. */
  lemma {:induction false} DigitsValueOfDecimal(n: nat)
    ensures DigitsValue(Decimal(n)) == n
  {
    var s := Decimal(n);
    if n >= 10 {
      assert s[..|s| - 1] == Decimal(n / 10);
      DigitsValueOfDecimal(n / 10);
    }
  }

  const MaxInt64: int := 0x7fff_ffff_ffff_ffff
  const MinInt64: int := -0x8000_0000_0000_0000

  /**
   * `strconv.Atoi` on a 64-bit platform: an optional sign, then one or more
   * decimal digits, and a value that fits in 64 bits; anything else is an error.
   */
  function Atoi(s: string): (r: Option<int>)
    ensures r.Some? ==> MinInt64 <= r.value <= MaxInt64
  {
    var negative := |s| > 0 && s[0] == '-';
    var body := if |s| > 0 && (s[0] == '+' || s[0] == '-') then s[1..] else s;
    if |body| == 0 || !AllDigits(body) then None
    else
      var v: int := DigitsValue(body);
      var n := if negative then -v else v;
      if MinInt64 <= n <= MaxInt64 then Some(n) else None
  }

  /** `Atoi` reads back every decimal rendering that fits in 64 bits, with either sign. */
  lemma AtoiOfDecimal(n: nat)
    ensures n <= MaxInt64 ==> Atoi(Decimal(n)) == Some(n)
    ensures n <= -MinInt64 ==> Atoi("-" + Decimal(n)) == Some(-(n as int))
    ensures n <= MaxInt64 ==> Atoi("+" + Decimal(n)) == Some(n)
  {
    DigitsValueOfDecimal(n);
    var d := Decimal(n);
    assert ("-" + d)[1..] == d;
    assert ("+" + d)[1..] == d;
  }

  // ---------------------------------------------------------------------------
  // ParseTimezone
  // ---------------------------------------------------------------------------

  /** The pattern `^UTC$|^UTC[+-][0-9]{1,2}$`. */
  predicate MatchesTimezonePattern(s: string) {
    || s == "UTC"
    || (&& 5 <= |s| <= 6
        && s[..3] == "UTC"
        && (s[3] == '+' || s[3] == '-')
        && AllDigits(s[4..]))
  }

  /** `strings.TrimPrefix`: `s` without `prefix` when it starts with it, otherwise `s`. */
  function TrimPrefix(s: string, prefix: string): (r: string)
    ensures |prefix| <= |s| && s[..|prefix|] == prefix ==> s == prefix + r
    ensures !(|prefix| <= |s| && s[..|prefix|] == prefix) ==> r == s
  {
    if |prefix| <= |s| && s[..|prefix|] == prefix then s[|prefix|..] else s
  }

  /**
   * `ParseTimezone(timezone)`, with `load` standing for `time.LoadLocation`
   * (`None` when it returns an error).
   */
  function ParseTimezone<L>(load: string -> Option<L>, timezone: string): (r: Zone<L>)
    ensures r.Loaded? <==> load(TrimSpace(timezone)).Some?
    ensures r.Loaded? ==> r.loc == load(TrimSpace(timezone)).value
    ensures r.Fixed? ==> r.name == TrimSpace(timezone) && MatchesTimezonePattern(r.name) && r.name != "UTC"
  {
    var tz := TrimSpace(timezone);
    if load(tz).Some? then Loaded(load(tz).value)
    else if !MatchesTimezonePattern(tz) then UTC
    else if tz == "UTC" then UTC
    else
      var offsetStr := TrimPrefix(tz, "UTC");
      var sign := offsetStr[0];
      var digitStr := offsetStr[1..];
      var digit := Atoi(digitStr);
      if digit.None? then UTC
      else
        match sign
        case '+' => Fixed(tz, digit.value * SecondsPerHour)
        case '-' => Fixed(tz, -digit.value * SecondsPerHour)
        case _ => UTC
  }

  /**
   * Once the pattern matches something other than "UTC", the digits after
   * the sign always parse and the sign is always '+' or '-': the error branch
   * of the digit parse and the default branch of the sign switch are dead.
   */
  lemma MatchedOffsetParses(tz: string)
    requires MatchesTimezonePattern(tz) && tz != "UTC"
    ensures TrimPrefix(tz, "UTC") == tz[3..]
    ensures tz[3] == '+' || tz[3] == '-'
    ensures |tz| == 5 || |tz| == 6
    ensures Atoi(tz[4..]) == Some(DigitsValue(tz[4..]))
    ensures DigitsValue(tz[4..]) <= 99
  {
  }

  /**
   * The result is UTC exactly when the database does not know the trimmed
   * descriptor and it either does not match the pattern or is "UTC" itself.
   */
  lemma ParseTimezoneUtc<L>(load: string -> Option<L>, timezone: string)
    ensures var tz := TrimSpace(timezone);
            ParseTimezone(load, timezone) == UTC <==>
              load(tz).None? && (!MatchesTimezonePattern(tz) || tz == "UTC")
  {
  }

  /**
   * "UTC+N" gives a fixed zone named by the descriptor at N hours east, and
   * "UTC-N" at N hours west; the offset is a whole number of hours and never
   * beyond 99 hours either way.
   */
  lemma ParseTimezoneFixed<L>(load: string -> Option<L>, timezone: string)
    requires var tz := TrimSpace(timezone);
             load(tz).None? && MatchesTimezonePattern(tz) && tz != "UTC"
    ensures var tz := TrimSpace(timezone);
            var hours: int := DigitsValue(tz[4..]);
            ParseTimezone(load, timezone) == Fixed(tz, if tz[3] == '+' then hours * SecondsPerHour
                                                       else -hours * SecondsPerHour)
    ensures var r := ParseTimezone(load, timezone);
            r.Fixed? && -99 * SecondsPerHour <= r.offset <= 99 * SecondsPerHour && r.offset % SecondsPerHour == 0
  {
  }

  /** Surrounding white space never changes the result. */
  lemma ParseTimezonePadding<L>(load: string -> Option<L>, p: string, s: string, q: string)
    requires AllSpace(p) && AllSpace(q)
    ensures ParseTimezone(load, p + s + q) == ParseTimezone(load, s)
  {
    TrimSpacePadding(p, s, q);
  }

  /** Hour counts up to 99 render in one or two digits. */
  lemma DecimalOfHours(hours: nat)
    requires hours <= 99
    ensures 1 <= |Decimal(hours)| <= 2
  {
  }

  /** The descriptor "UTC" followed by a sign and a digit string. */
  function OffsetName(east: bool, digits: string): (name: string) {
    "UTC" + (if east then "+" else "-") + digits
  }

  /** An offset descriptor with one or two digits matches the pattern and carries its sign and digits in place. */
  lemma OffsetNameMatches(east: bool, digits: string)
    requires 1 <= |digits| <= 2 && AllDigits(digits)
    ensures var tz := OffsetName(east, digits);
            && MatchesTimezonePattern(tz) && tz != "UTC"
            && tz[3] == (if east then '+' else '-') && tz[4..] == digits
  {
  }

  /** An offset descriptor has no white space to trim. */
  lemma OffsetNameTrimmed(east: bool, digits: string)
    requires 1 <= |digits| <= 2 && AllDigits(digits)
    ensures TrimSpace(OffsetName(east, digits)) == OffsetName(east, digits)
  {
  }

  /** "UTC+D" / "UTC-D" with one or two digits D parses to D hours east or west. */
  lemma ParseTimezoneOfDigits<L>(load: string -> Option<L>, east: bool, digits: string)
    requires 1 <= |digits| <= 2 && AllDigits(digits)
    requires load(OffsetName(east, digits)).None?
    ensures var tz := OffsetName(east, digits);
            var hours: int := DigitsValue(digits);
            ParseTimezone(load, tz) == Fixed(tz, if east then hours * SecondsPerHour else -hours * SecondsPerHour)
  {
    var tz := OffsetName(east, digits);
    OffsetNameMatches(east, digits);
    OffsetNameTrimmed(east, digits);
    assert TrimSpace(tz) == tz;
    ParseTimezoneFixed(load, tz);
    assert tz[4..] == digits && tz[3] == (if east then '+' else '-');
  }

  /**
   * Round trip: rendering a sign and an hour count up to 99 as "UTC±N" and
   * parsing it back (when the database does not claim the name) gives that offset.
   */
  lemma ParseTimezoneOfOffset<L>(load: string -> Option<L>, east: bool, hours: nat)
    requires hours <= 99
    requires load(OffsetName(east, Decimal(hours))).None?
    ensures var tz := OffsetName(east, Decimal(hours));
            ParseTimezone(load, tz) == Fixed(tz, if east then hours * SecondsPerHour else -(hours as int) * SecondsPerHour)
  {
    DecimalOfHours(hours);
    DigitsValueOfDecimal(hours);
    ParseTimezoneOfDigits(load, east, Decimal(hours));
  }

  /** "UTC+8" is eight hours east and "UTC-4" four hours west, when the database does not claim those names. */
  lemma ParseTimezoneOffsetExamples<L>(load: string -> Option<L>)
    requires load("UTC+8").None? && load("UTC-4").None?
    ensures ParseTimezone(load, "UTC+8") == Fixed("UTC+8", 28800)
    ensures ParseTimezone(load, "UTC-4") == Fixed("UTC-4", -14400)
  {
    assert OffsetName(true, "8") == "UTC+8" && OffsetName(false, "4") == "UTC-4";
    ParseTimezoneOfDigits(load, true, "8");
    ParseTimezoneOfDigits(load, false, "4");
  }

  /**
   * Descriptors that the database does not know and that do not match the
   * pattern fall back to UTC: an unknown word, and an offset with three digits.
   */
  lemma ParseTimezoneFallbacks<L>(load: string -> Option<L>)
    requires load("zlkbdasklhnt").None? && load("UTC+123").None?
    ensures ParseTimezone(load, "zlkbdasklhnt") == UTC
    ensures ParseTimezone(load, "UTC+123") == UTC
  {
    TrimSpaceOfTrimmed("zlkbdasklhnt");
    TrimSpaceOfTrimmed("UTC+123");
  }

  /**
   * `time.LoadLocation` answers both the empty name and "UTC" with its UTC
   * location, so with such a lookup the empty descriptor and "UTC", padded or
   * not, are answered by the lookup, and the explicit "UTC" test after the
   * pattern is never reached.
   */
  lemma ParseTimezoneUtcNames<L>(load: string -> Option<L>, utc: L, timezone: string)
    requires load("") == Some(utc) && load("UTC") == Some(utc)
    ensures ParseTimezone(load, "") == Loaded(utc)
    ensures ParseTimezone(load, " UTC ") == Loaded(utc)
    ensures ParseTimezone(load, timezone) == UTC ==> TrimSpace(timezone) != "UTC" && TrimSpace(timezone) != ""
  {
    TrimSpaceOfTrimmed("UTC");
    TrimSpacePadding(" ", "UTC", " ");
    assert " " + "UTC" + " " == " UTC ";
  }

  /**
   * The pattern accepts, besides "UTC", exactly the descriptors "UTC+D" and
   * "UTC-D" with one or two digits D.
   */
  lemma TimezonePatternIsOffsetName(s: string)
    ensures MatchesTimezonePattern(s) && s != "UTC" <==>
              exists east: bool, digits: string :: 1 <= |digits| <= 2 && AllDigits(digits) && s == OffsetName(east, digits)
  {
    if MatchesTimezonePattern(s) && s != "UTC" {
      var east := s[3] == '+';
      assert s == OffsetName(east, s[4..]);
    }
    forall east: bool, digits: string | 1 <= |digits| <= 2 && AllDigits(digits) && s == OffsetName(east, digits)
      ensures MatchesTimezonePattern(s) && s != "UTC"
    {
      OffsetNameMatches(east, digits);
    }
  }
}
