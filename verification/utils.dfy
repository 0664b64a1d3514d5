/** The input parsers of utils.py: `parse_int` (Python's `int()` on a
    base-10 string) and `parse_datetime` (`datetime.strptime` tried against
    four formats in a fixed order). */
module Utils {
  import opened Wrappers
  import opened Errors
  import opened Text
  import opened DateTimes

  // ---------------------------------------------------------------------
  // parse_int
  // ---------------------------------------------------------------------

  predicate IsSign(c: char) {
    c == '+' || c == '-'
  }

  /** The whitespace `int()` skips around a literal: the `str.isspace()`
      characters except U+001C..U+001F, which CPython's integer reader does
      not count as blank although `isspace()` holds for them. */
  predicate IsIntSpace(c: char) {
    IsSpace(c) && !('\U{1C}' <= c <= '\U{1F}')
  }

  predicate AllIntSpace(s: string) {
    forall i :: 0 <= i < |s| ==> IsIntSpace(s[i])
  }

  /** The most digits `int()` reads from a decimal string by default
      (`sys.get_int_max_str_digits()`); a longer literal raises
      `ValueError`. Leading zeros count. */
  const MaxStrDigits := 4300

  /** A run of one to `MaxStrDigits` decimal digits. */
  predicate IsDigitRun(ds: string) {
    ds != [] && |ds| <= MaxStrDigits && AllDigits(ds)
  }

  /** `t` is a decimal literal for `v`: an optional sign followed by a
      digit run within the limit, with nothing else. */
  ghost predicate IsDecimal(t: string, v: int) {
    || (IsDigitRun(t) && v == DigitsValue(t))
    || (t != [] && t[0] == '+' && IsDigitRun(t[1..]) && v == DigitsValue(t[1..]))
    || (t != [] && t[0] == '-' && IsDigitRun(t[1..]) && v == -(DigitsValue(t[1..]) as int))
  }

  /** `s` is a decimal literal for `v` with optional `int()` whitespace
      around it. */
  ghost predicate IsPaddedDecimal(s: string, v: int) {
    exists i, j :: 0 <= i <= j <= |s| && AllIntSpace(s[..i]) && AllIntSpace(s[j..]) && IsDecimal(s[i..j], v)
  }

  /** The integer a stripped text denotes, if it is a decimal literal. */
  function ReadDecimal(t: string): (r: Option<int>)
    ensures forall v :: r == Some(v) <==> IsDecimal(t, v)
  {
    if t != [] && IsSign(t[0]) && IsDigitRun(t[1..]) then
      Some(if t[0] == '-' then -(DigitsValue(t[1..]) as int) else DigitsValue(t[1..]))
    else if IsDigitRun(t) then
      Some(DigitsValue(t))
    else
      None
  }

  /** `parse_int(value)`: `int(value)`, re-raised as "Invalid Integer".
      The text is cut around its `str.strip()` core; the cut-off ends must
      be whitespace `int()` skips, and the core a decimal literal. */
  function ParseInt(value: string): (r: Result<int, Error>)
    ensures r.Failure? ==> r.error == InvalidInteger(value)
  {
    var core := Strip(value);
    var lead := LeadingSpaces(value);
    if !AllIntSpace(value[..lead]) || !AllIntSpace(value[lead + |core|..]) then
      Failure(InvalidInteger(value))
    else
      match ReadDecimal(core)
      case Some(v) => Success(v)
      case None => Failure(InvalidInteger(value))
  }

  /** A successful `parse_int` read a whitespace-padded decimal literal. */
  lemma ParseIntSound(s: string, v: int)
    requires ParseInt(s) == Success(v)
    ensures IsPaddedDecimal(s, v)
  {
    var t := Strip(s);
    var i := LeadingSpaces(s);
    var j := i + |t|;
    assert s[i..j] == t;
    assert IsDecimal(s[i..j], v);
  }

  /** Every whitespace-padded decimal literal is read by `parse_int`. */
  lemma ParseIntComplete(s: string, i: int, j: int, v: int)
    requires 0 <= i <= j <= |s|
    requires AllIntSpace(s[..i]) && AllIntSpace(s[j..])
    requires IsDecimal(s[i..j], v)
    ensures ParseInt(s) == Success(v)
  {
    var d := s[i..j];
    assert !IsSpace(d[0]) && !IsSpace(d[|d| - 1]);
    StripAt(s, i, j);
    LeadingSpacesAt(s, i, j);
    assert ReadDecimal(Strip(s)) == Some(v);
  }

  /** `parse_int` accepts exactly the whitespace-padded decimal literals and
      returns the integer they denote: there is no partial parse. */
  lemma ParseIntIff(s: string, v: int)
    ensures ParseInt(s) == Success(v) <==> IsPaddedDecimal(s, v)
  {
    if ParseInt(s) == Success(v) {
      ParseIntSound(s, v);
    }
    if IsPaddedDecimal(s, v) {
      var i, j :| 0 <= i <= j <= |s| && AllIntSpace(s[..i]) && AllIntSpace(s[j..]) && IsDecimal(s[i..j], v);
      ParseIntComplete(s, i, j, v);
    }
  }

  /** Padding `int()` does not skip makes `parse_int` fail, even around a
      literal `str.strip()` would isolate: U+001C before "5" is refused. */
  lemma FileSeparatorRefused()
    ensures ParseInt("\U{1C}5") == Failure(InvalidInteger("\U{1C}5"))
  {
    var s := "\U{1C}5";
    assert IsSpace(s[0]) && !IsSpace(s[1]);
    assert s[1..] == "5";
    LeadingSpacesFramed(s[..1], s[1..]);
    assert !IsIntSpace(s[..LeadingSpaces(s)][0]);
  }

  /** Python's `str(n)` for a non-negative integer. */
  function NatToString(n: nat): (s: string)
    ensures s != [] && AllDigits(s)
    ensures DigitsValue(s) == n
  {
    var init := if n < 10 then [] else NatToString(n / 10);
    var s := init + [DigitChar(n % 10)];
    assert s[..|s| - 1] == init;
    s
  }

  /** Python's `str(n)`. */
  function IntToString(n: int): string {
    if n < 0 then "-" + NatToString(-n) else NatToString(n)
  }

  /** Round trip: `parse_int` reads back every integer whose decimal
      rendering has at most `MaxStrDigits` digits (the sign not counted). */
  lemma ParseIntRoundTrip(n: int)
    requires |IntToString(n)| <= MaxStrDigits + (if n < 0 then 1 else 0)
    ensures ParseInt(IntToString(n)) == Success(n)
  {
    var s := IntToString(n);
    if n < 0 {
      var digits := NatToString(-n);
      assert s == "-" + digits;
      assert s[1..] == digits;
      assert IsDecimal(s, n);
    } else {
      assert IsDecimal(s, n);
    }
    assert s[0..|s|] == s;
    ParseIntComplete(s, 0, |s|, n);
  }

  /** A run of more than `MaxStrDigits` digits is refused, whatever it
      denotes, as `int()` refuses it. */
  lemma TooManyDigitsRefused(ds: string)
    requires AllDigits(ds) && |ds| > MaxStrDigits
    ensures ParseInt(ds) == Failure(InvalidInteger(ds))
  {
    assert IsDigit(ds[0]) && IsDigit(ds[|ds| - 1]);
    StripAt(ds, 0, |ds|);
    LeadingSpacesAt(ds, 0, |ds|);
    assert ds[0] != '+' && ds[0] != '-';
    assert ReadDecimal(ds) == None;
  }

  // ---------------------------------------------------------------------
  // parse_datetime
  // ---------------------------------------------------------------------

  /** The directives the four formats use. */
  datatype Field = Year | Month | Day | Hour | Minute

  /** One element of a format string: a directive, a literal `-` or `:`, or
      the space, which `strptime` matches against one or more whitespace
      characters. */
  datatype Piece = Num(field: Field) | Dash | Colon | Blank

  datatype Format =
    | YearFirstWithTime   // '%Y-%m-%d %H:%M'
    | YearFirst           // '%Y-%m-%d'
    | DayFirstWithTime    // '%d-%m-%Y %H:%M'
    | DayFirst            // '%d-%m-%Y'

  /** The formats `parse_datetime` tries, in the order it tries them. */
  const Formats: seq<Format> := [YearFirstWithTime, YearFirst, DayFirstWithTime, DayFirst]

  function Pattern(f: Format): seq<Piece> {
    match f
    case YearFirstWithTime =>
      [Num(Year), Dash, Num(Month), Dash, Num(Day), Blank, Num(Hour), Colon, Num(Minute)]
    case YearFirst =>
      [Num(Year), Dash, Num(Month), Dash, Num(Day)]
    case DayFirstWithTime =>
      [Num(Day), Dash, Num(Month), Dash, Num(Year), Blank, Num(Hour), Colon, Num(Minute)]
    case DayFirst =>
      [Num(Day), Dash, Num(Month), Dash, Num(Year)]
  }

  /** Number of digits a directive takes: `%Y` exactly four, the others
      one or two. */
  function MinWidth(f: Field): nat {
    if f == Year then 4 else 1
  }

  function MaxWidth(f: Field): nat {
    if f == Year then 4 else 2
  }

  /** The values each directive's pattern admits (`%m` 1..12, `%d` 1..31,
      `%H` 0..23, `%M` 0..59; any four digits for `%Y`). */
  predicate InRange(f: Field, v: int) {
    match f
    case Year => true
    case Month => 1 <= v <= 12
    case Day => 1 <= v <= 31
    case Hour => 0 <= v <= 23
    case Minute => 0 <= v <= 59
  }

  /** The fields read so far; `strptime` starts from 1900-01-01 00:00. */
  datatype Parsed = Parsed(year: int, month: int, day: int, hour: int, minute: int)

  const Defaults := Parsed(1900, 1, 1, 0, 0)

  function Assign(p: Parsed, f: Field, v: int): Parsed {
    match f
    case Year => p.(year := v)
    case Month => p.(month := v)
    case Day => p.(day := v)
    case Hour => p.(hour := v)
    case Minute => p.(minute := v)
  }

  /** Matches the whole of `s` against `pat`. Each directive takes the
      maximal run of digits at its position: the character after it must be
      a separator or the end of the text, so a shorter take never matches. */
  function MatchPieces(s: string, pat: seq<Piece>, acc: Parsed): Option<Parsed>
    decreases pat
  {
    if pat == [] then
      (if s == [] then Some(acc) else None)
    else
      match pat[0]
      case Num(f) =>
        var n := DigitRun(s);
        if MinWidth(f) <= n <= MaxWidth(f) && InRange(f, DigitsValue(s[..n])) then
          MatchPieces(s[n..], pat[1..], Assign(acc, f, DigitsValue(s[..n])))
        else None
      case Dash =>
        if s != [] && s[0] == '-' then MatchPieces(s[1..], pat[1..], acc) else None
      case Colon =>
        if s != [] && s[0] == ':' then MatchPieces(s[1..], pat[1..], acc) else None
      case Blank =>
        var n := LeadingSpaces(s);
        if n >= 1 then MatchPieces(s[n..], pat[1..], acc) else None
  }

  /** `datetime(...)` built from the fields read: `None` for the
      `ValueError` it raises on a date the calendar lacks. */
  function Build(p: Parsed): (r: Option<DateTime>)
    ensures r.Some? <==> IsValidDate(p.year, p.month, p.day) && 0 <= p.hour < 24 && 0 <= p.minute < 60
    ensures r.Some? ==> r.value == DateTime(p.year, p.month, p.day, p.hour, p.minute, 0, 0)
  {
    if IsValidDate(p.year, p.month, p.day) && 0 <= p.hour < 24 && 0 <= p.minute < 60 then
      Some(DateTime(p.year, p.month, p.day, p.hour, p.minute, 0, 0))
    else None
  }

  /** `datetime.strptime(s, f)`, with `None` for its `ValueError`: the text
      must match the whole format and name a real calendar date. */
  function ParseWith(s: string, f: Format): (r: Option<DateTime>)
    ensures r.Some? ==> IsValid(r.value) && r.value.second == 0 && r.value.microsecond == 0
  {
    match MatchPieces(s, Pattern(f), Defaults)
    case None => None
    case Some(p) => Build(p)
  }

  /** The loop of `parse_datetime` over the remaining formats `fs`. */
  function FirstMatch(s: string, fs: seq<Format>): (r: Result<DateTime, Error>)
    ensures r.Failure? <==> forall k :: 0 <= k < |fs| ==> ParseWith(s, fs[k]).None?
    ensures r.Failure? ==> r.error == InvalidDatetime
    ensures r.Success? ==>
      exists k :: 0 <= k < |fs| && ParseWith(s, fs[k]) == Some(r.value)
        && forall j :: 0 <= j < k ==> ParseWith(s, fs[j]).None?
  {
    if fs == [] then Failure(InvalidDatetime)
    else
      match ParseWith(s, fs[0])
      case Some(d) =>
        assert ParseWith(s, fs[0]) == Some(d);
        Success(d)
      case None =>
        var r := FirstMatch(s, fs[1..]);
        assert forall k :: 1 <= k < |fs| ==> fs[k] == fs[1..][k - 1];
        if r.Success? then
          var k :| 0 <= k < |fs| - 1 && ParseWith(s, fs[1..][k]) == Some(r.value)
            && forall j :: 0 <= j < k ==> ParseWith(s, fs[1..][j]).None?;
          assert ParseWith(s, fs[k + 1]) == Some(r.value);
          r
        else r
  }

  /** `parse_datetime(value)`: the first of the four formats that parses the
      text decides; if none does, it fails. */
  function ParseDateTime(value: string): (r: Result<DateTime, Error>)
    ensures r.Success? ==> IsValid(r.value) && r.value.second == 0 && r.value.microsecond == 0
    ensures r.Failure? <==> forall f :: f in Formats ==> ParseWith(value, f).None?
    ensures r.Failure? ==> r.error == InvalidDatetime
  {
    FirstMatch(value, Formats)
  }

  // ---------------------------------------------------------------------
  // Properties of parse_datetime
  // ---------------------------------------------------------------------

  /** Matching never touches a field whose directive the pattern lacks. */
  lemma {:induction false} MatchKeepsAbsentFields(s: string, pat: seq<Piece>, acc: Parsed)
    requires MatchPieces(s, pat, acc).Some?
    ensures Num(Hour) !in pat ==> MatchPieces(s, pat, acc).value.hour == acc.hour
    ensures Num(Minute) !in pat ==> MatchPieces(s, pat, acc).value.minute == acc.minute
    decreases pat
  {
    if pat != [] {
      match pat[0]
      case Num(f) =>
        var n := DigitRun(s);
        MatchKeepsAbsentFields(s[n..], pat[1..], Assign(acc, f, DigitsValue(s[..n])));
      case Dash =>
        MatchKeepsAbsentFields(s[1..], pat[1..], acc);
      case Colon =>
        MatchKeepsAbsentFields(s[1..], pat[1..], acc);
      case Blank =>
        MatchKeepsAbsentFields(s[LeadingSpaces(s)..], pat[1..], acc);
    }
  }

  /** The date-only formats yield midnight: hour and minute are 0. */
  lemma DateOnlyFormatsYieldMidnight(s: string, f: Format)
    requires f == YearFirst || f == DayFirst
    requires ParseWith(s, f).Some?
    ensures ParseWith(s, f).value.hour == 0 && ParseWith(s, f).value.minute == 0
  {
    MatchKeepsAbsentFields(s, Pattern(f), Defaults);
  }

  /** Text matched by a pattern without a blank holds no whitespace. */
  lemma {:induction false} NoBlankNoSpace(s: string, pat: seq<Piece>, acc: Parsed)
    requires Blank !in pat
    requires MatchPieces(s, pat, acc).Some?
    ensures forall k :: 0 <= k < |s| ==> !IsSpace(s[k])
    decreases pat
  {
    if pat != [] {
      match pat[0]
      case Num(f) =>
        var n := DigitRun(s);
        NoBlankNoSpace(s[n..], pat[1..], Assign(acc, f, DigitsValue(s[..n])));
        assert forall k :: 0 <= k < n ==> s[k] == s[..n][k];
        assert forall k :: n <= k < |s| ==> s[k] == s[n..][k - n];
      case Dash =>
        NoBlankNoSpace(s[1..], pat[1..], acc);
        assert forall k :: 1 <= k < |s| ==> s[k] == s[1..][k - 1];
      case Colon =>
        NoBlankNoSpace(s[1..], pat[1..], acc);
        assert forall k :: 1 <= k < |s| ==> s[k] == s[1..][k - 1];
    }
  }

  /** Text matched by a pattern with a blank holds some whitespace. */
  lemma {:induction false} BlankHasSpace(s: string, pat: seq<Piece>, acc: Parsed)
    requires Blank in pat
    requires MatchPieces(s, pat, acc).Some?
    ensures exists k :: 0 <= k < |s| && IsSpace(s[k])
    decreases pat
  {
    match pat[0]
    case Num(f) =>
      var n := DigitRun(s);
      BlankHasSpace(s[n..], pat[1..], Assign(acc, f, DigitsValue(s[..n])));
      var k :| 0 <= k < |s[n..]| && IsSpace(s[n..][k]);
      assert s[n + k] == s[n..][k];
    case Dash =>
      BlankHasSpace(s[1..], pat[1..], acc);
      var k :| 0 <= k < |s[1..]| && IsSpace(s[1..][k]);
      assert s[k + 1] == s[1..][k];
    case Colon =>
      BlankHasSpace(s[1..], pat[1..], acc);
      var k :| 0 <= k < |s[1..]| && IsSpace(s[1..][k]);
      assert s[k + 1] == s[1..][k];
    case Blank =>
      assert IsSpace(s[..LeadingSpaces(s)][0]);
  }

  predicate HasTime(f: Format) {
    f == YearFirstWithTime || f == DayFirstWithTime
  }

  predicate IsYearFirst(f: Format) {
    f == YearFirstWithTime || f == YearFirst
  }

  /** A match starts with the digit run its first directive admits. */
  lemma FirstDirectiveWidth(s: string, pat: seq<Piece>, acc: Parsed)
    requires pat != [] && pat[0].Num?
    requires MatchPieces(s, pat, acc).Some?
    ensures MinWidth(pat[0].field) <= DigitRun(s) <= MaxWidth(pat[0].field)
  {
  }

  /** What a match under each format reveals about where the text starts:
      a year-first text with a run of exactly four digits, a day-first one
      with a run of at most two. */
  lemma MatchedLeadingRun(s: string, f: Format)
    requires MatchPieces(s, Pattern(f), Defaults).Some?
    ensures IsYearFirst(f) ==> DigitRun(s) == 4
    ensures !IsYearFirst(f) ==> DigitRun(s) <= 2
  {
    var pat := Pattern(f);
    if IsYearFirst(f) {
      assert pat[0] == Num(Year);
    } else {
      assert pat[0] == Num(Day);
    }
    FirstDirectiveWidth(s, pat, Defaults);
  }

  /** Only the formats with a time match a text holding whitespace. */
  lemma MatchedSpace(s: string, f: Format)
    requires MatchPieces(s, Pattern(f), Defaults).Some?
    ensures HasTime(f) <==> exists k :: 0 <= k < |s| && IsSpace(s[k])
  {
    if HasTime(f) {
      BlankHasSpace(s, Pattern(f), Defaults);
    } else {
      NoBlankNoSpace(s, Pattern(f), Defaults);
    }
  }

  /** No text parses under two of the four formats, so the order in which
      `parse_datetime` tries them never reinterprets a text. */
  lemma FormatsExclusive(s: string, f: Format, g: Format)
    requires f != g
    requires ParseWith(s, f).Some?
    ensures ParseWith(s, g).None?
  {
    if ParseWith(s, g).Some? {
      MatchedLeadingRun(s, f);
      MatchedLeadingRun(s, g);
      MatchedSpace(s, f);
      MatchedSpace(s, g);
      assert false;
    }
  }

  /** Parsing succeeds with `d` exactly when one of the four formats reads
      `d` from the text. */
  lemma ParseDateTimeIff(s: string, d: DateTime)
    ensures ParseDateTime(s) == Success(d) <==> exists f :: f in Formats && ParseWith(s, f) == Some(d)
  {
    if f :| f in Formats && ParseWith(s, f) == Some(d) {
      var r := ParseDateTime(s);
      if r.Success? {
        var k :| 0 <= k < |Formats| && ParseWith(s, Formats[k]) == Some(r.value);
        if Formats[k] != f {
          FormatsExclusive(s, f, Formats[k]);
        }
      }
    }
  }

  /** A text starting with a four-digit year never matches a day-first
      format. */
  lemma YearFieldExcludesDayFirst(s: string)
    requires |s| >= 4 && AllDigits(s[..4])
    ensures ParseWith(s, DayFirstWithTime).None? && ParseWith(s, DayFirst).None?
  {
    assert forall k :: 0 <= k < 4 ==> s[k] == s[..4][k];
    assert DigitRun(s) >= 4;
  }

  // ---------------------------------------------------------------------
  // Rendering, the inverse of parsing
  // ---------------------------------------------------------------------

  function Get(p: Parsed, f: Field): int {
    match f
    case Year => p.year
    case Month => p.month
    case Day => p.day
    case Hour => p.hour
    case Minute => p.minute
  }

  /** Every field fits its directive's width and range. */
  predicate Renderable(p: Parsed) {
    && 0 <= p.year <= 9999
    && forall f :: InRange(f, Get(p, f))
  }

  /** A directive is always followed by a separator, and a blank by a
      directive: true of all four formats. */
  predicate Separated(pat: seq<Piece>) {
    forall k :: 0 <= k < |pat| ==> SeparatedAt(pat, k)
  }

  predicate SeparatedAt(pat: seq<Piece>, k: nat)
    requires k < |pat|
  {
    && (pat[k].Num? && k + 1 < |pat| ==> !pat[k + 1].Num?)
    && (pat[k] == Blank ==> k + 1 < |pat| && pat[k + 1].Num?)
  }

  lemma PatternSeparated(f: Format)
    ensures Separated(Pattern(f))
  {
  }

  /** `strftime` of one piece: a directive zero-padded to its full width,
      one space for the blank. */
  function RenderPiece(piece: Piece, p: Parsed): (s: string)
    requires Renderable(p)
    ensures piece.Num? ==>
      (|s| == MaxWidth(piece.field) && AllDigits(s) && DigitsValue(s) == Get(p, piece.field))
    ensures !piece.Num? ==> |s| == 1 && !IsDigit(s[0]) && (IsSpace(s[0]) <==> piece == Blank)
  {
    match piece
    case Num(f) =>
      assert Pow10(2) == 100 && Pow10(4) == 10000;
      Pad(Get(p, f), MaxWidth(f))
    case Dash => "-"
    case Colon => ":"
    case Blank => " "
  }

  /** `strftime` with the pattern. */
  function Render(pat: seq<Piece>, p: Parsed): (s: string)
    requires Renderable(p)
    ensures pat != [] ==> |s| >= 1 && (IsDigit(s[0]) <==> pat[0].Num?) && (IsSpace(s[0]) <==> pat[0] == Blank)
  {
    if pat == [] then []
    else RenderPiece(pat[0], p) + Render(pat[1..], p)
  }

  lemma SeparatedTail(pat: seq<Piece>)
    requires pat != [] && Separated(pat)
    ensures Separated(pat[1..])
    ensures pat[0].Num? && |pat| > 1 ==> !pat[1].Num?
    ensures pat[0] == Blank ==> |pat| > 1 && pat[1].Num?
  {
    var rest := pat[1..];
    forall k | 0 <= k < |rest|
      ensures SeparatedAt(rest, k)
    {
      assert SeparatedAt(pat, k + 1);
    }
    assert SeparatedAt(pat, 0);
  }

  /** The effect of matching one piece on the fields read so far. */
  function Step(acc: Parsed, piece: Piece, p: Parsed): Parsed {
    if piece.Num? then Assign(acc, piece.field, Get(p, piece.field)) else acc
  }

  /** Matching a rendering consumes exactly the first piece's rendering. */
  lemma MatchHead(pat: seq<Piece>, p: Parsed, acc: Parsed)
    requires Renderable(p) && pat != [] && Separated(pat)
    ensures MatchPieces(Render(pat, p), pat, acc)
         == MatchPieces(Render(pat[1..], p), pat[1..], Step(acc, pat[0], p))
  {
    SeparatedTail(pat);
    var head := RenderPiece(pat[0], p);
    var tail := Render(pat[1..], p);
    var s := head + tail;
    assert s[|head|..] == tail;
    match pat[0]
    case Num(f) =>
      DigitRunFramed(head, tail);
      assert s[..|head|] == head;
      assert InRange(f, Get(p, f));
    case Dash =>
    case Colon =>
    case Blank =>
      LeadingSpacesFramed(head, tail);
  }

  /** Matching a rendering reads back every field the pattern names and
      leaves the others as they were. */
  lemma {:induction false} MatchRender(pat: seq<Piece>, p: Parsed, acc: Parsed)
    requires Renderable(p) && Separated(pat)
    ensures MatchPieces(Render(pat, p), pat, acc).Some?
    ensures forall f :: Get(MatchPieces(Render(pat, p), pat, acc).value, f)
                        == if Num(f) in pat then Get(p, f) else Get(acc, f)
    decreases pat
  {
    if pat != [] {
      SeparatedTail(pat);
      MatchHead(pat, p, acc);
      MatchRender(pat[1..], p, Step(acc, pat[0], p));
      assert forall f :: Num(f) in pat <==> pat[0] == Num(f) || Num(f) in pat[1..];
    }
  }

  /** `d.strftime(f)` for one of the four formats. */
  function FormatDateTime(d: DateTime, f: Format): string
    requires IsValid(d)
  {
    Render(Pattern(f), Parsed(d.year, d.month, d.day, d.hour, d.minute))
  }

  lemma PatternNames(f: Format)
    ensures Num(Year) in Pattern(f) && Num(Month) in Pattern(f) && Num(Day) in Pattern(f)
    ensures HasTime(f) <==> Num(Hour) in Pattern(f)
    ensures HasTime(f) <==> Num(Minute) in Pattern(f)
  {
  }

  lemma ValidRenderable(d: DateTime)
    requires IsValid(d)
    ensures Renderable(Parsed(d.year, d.month, d.day, d.hour, d.minute))
  {
    var p := Parsed(d.year, d.month, d.day, d.hour, d.minute);
    forall g ensures InRange(g, Get(p, g)) {
    }
  }

  /** A pattern naming the date directives reads a rendering back in full;
      hour and minute come back too when they are named or still at their
      default. */
  lemma MatchRenderComplete(pat: seq<Piece>, p: Parsed)
    requires Renderable(p) && Separated(pat)
    requires Num(Year) in pat && Num(Month) in pat && Num(Day) in pat
    requires Num(Hour) in pat || p.hour == 0
    requires Num(Minute) in pat || p.minute == 0
    ensures MatchPieces(Render(pat, p), pat, Defaults) == Some(p)
  {
    MatchRender(pat, p, Defaults);
    var m := MatchPieces(Render(pat, p), pat, Defaults).value;
    assert Get(m, Year) == p.year && Get(m, Month) == p.month && Get(m, Day) == p.day;
    assert Get(m, Hour) == p.hour && Get(m, Minute) == p.minute;
  }

  lemma MatchFormatted(d: DateTime, f: Format)
    requires IsValid(d)
    requires HasTime(f) || (d.hour == 0 && d.minute == 0)
    ensures MatchPieces(FormatDateTime(d, f), Pattern(f), Defaults)
         == Some(Parsed(d.year, d.month, d.day, d.hour, d.minute))
  {
    ValidRenderable(d);
    PatternSeparated(f);
    PatternNames(f);
    MatchRenderComplete(Pattern(f), Parsed(d.year, d.month, d.day, d.hour, d.minute));
  }

  /** `strptime` with format `f` reads back the rendering in format `f`. */
  lemma ParseWithRender(d: DateTime, f: Format)
    requires IsValid(d) && d.second == 0 && d.microsecond == 0
    requires HasTime(f) || (d.hour == 0 && d.minute == 0)
    ensures ParseWith(FormatDateTime(d, f), f) == Some(d)
  {
    MatchFormatted(d, f);
    assert Build(Parsed(d.year, d.month, d.day, d.hour, d.minute)) == Some(d);
  }

  /** Round trip: every valid timestamp with whole minutes, rendered in any
      of the four formats (a date-only format when the time is midnight), is
      read back unchanged by `parse_datetime`. */
  lemma ParseDateTimeRoundTrip(d: DateTime, f: Format)
    requires IsValid(d) && d.second == 0 && d.microsecond == 0
    requires HasTime(f) || (d.hour == 0 && d.minute == 0)
    ensures ParseDateTime(FormatDateTime(d, f)) == Success(d)
  {
    ParseWithRender(d, f);
    assert f in Formats;
    ParseDateTimeIff(FormatDateTime(d, f), d);
  }
}
