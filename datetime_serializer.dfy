/**
 * The date-time string codec of the serialization package.
 *
 * `Load` reads a loose RFC 3339 (section 5.6) / ISO 8601 extended date-time. The grammar is
 *
 *     YEAR{2,4 digits} '-' MM '-' DD ('T' | ' ') HH ':' MM [':' SS] ['.' DIGITS+] [ZONE]
 *     ZONE = ('+' | '-') HH [':'] MM | 'Z' | 'z'
 *
 * matched at the start of the input only, so text after the longest match is ignored.
 * `Dump` is `isoformat()` followed by a literal 'Z'.
 */
module DateTimeSerializer {
  import opened Wrappers
  import opened Decimal

  /** A Python `datetime`: calendar fields and an optional UTC offset in minutes (None = naive). */
  datatype DateTime = DateTime(
    year: int, month: int, day: int,
    hour: int, minute: int, second: int, microsecond: int,
    offset: Option<int>)

  datatype LoadError =
    | NoMatch(input: string)      // "Could not parse DateTime: '...'"
    | Rejected(fields: DateTime)  // the datetime or timezone constructor refused the fields

  /**
   * The named groups of the pattern, plus the separator character (which the pattern does not
   * capture, but which is part of the matched text).
   */
  datatype Groups = Groups(
    year: string, month: string, day: string, sep: char,
    hour: string, minute: string,
    second: Option<string>, fraction: Option<string>, zone: Option<string>)

  predicate IsSign(c: char) {
    c == '+' || c == '-'
  }

  predicate TwoDigits(s: string) {
    |s| == 2 && AllDigits(s)
  }

  predicate IsUtcToken(z: string) {
    z == "Z" || z == "z"
  }

  /** `[+-]HH:MM` */
  predicate IsColonOffset(z: string) {
    |z| == 6 && IsSign(z[0]) && IsDigit(z[1]) && IsDigit(z[2]) && z[3] == ':' && IsDigit(z[4]) && IsDigit(z[5])
  }

  /** `[+-]HHMM` */
  predicate IsCompactOffset(z: string) {
    |z| == 5 && IsSign(z[0]) && IsDigit(z[1]) && IsDigit(z[2]) && IsDigit(z[3]) && IsDigit(z[4])
  }

  /** The texts the `tz` group can capture. */
  predicate IsZoneToken(z: string) {
    IsUtcToken(z) || IsColonOffset(z) || IsCompactOffset(z)
  }

  /** Group contents that the pattern admits. */
  predicate WellFormed(g: Groups) {
    && 2 <= |g.year| <= 4 && AllDigits(g.year)
    && TwoDigits(g.month) && TwoDigits(g.day)
    && (g.sep == 'T' || g.sep == ' ')
    && TwoDigits(g.hour) && TwoDigits(g.minute)
    && (g.second.Some? ==> TwoDigits(g.second.value))
    && (g.fraction.Some? ==> 1 <= |g.fraction.value| && AllDigits(g.fraction.value))
    && (g.zone.Some? ==> IsZoneToken(g.zone.value))
  }

  /** The mandatory part `Y-m-d[T ]H:M` of the matched text. */
  function Head(g: Groups): (h: string)
    requires WellFormed(g)
    ensures |h| == |g.year| + 12
  {
    g.year + ['-', g.month[0], g.month[1], '-', g.day[0], g.day[1], g.sep,
              g.hour[0], g.hour[1], ':', g.minute[0], g.minute[1]]
  }

  /** The text of an optional group with its literal prefix, or nothing when the group is absent. */
  function Part(prefix: string, group: Option<string>): string {
    if group.Some? then prefix + group.value else ""
  }

  function Tail(g: Groups): string {
    Part(":", g.second) + Part(".", g.fraction) + Part("", g.zone)
  }

  /** The text a match with these groups consumes. */
  function Render(g: Groups): (r: string)
    requires WellFormed(g)
    ensures |r| >= |g.year| + 12 && Head(g) <= r
  {
    Head(g) + Tail(g)
  }

  // ---------------------------------------------------------------------------------------------
  // The matcher. Each optional group is greedy and everything after it is optional too, so the
  // regular expression's first successful match takes each optional group whenever it can.
  // ---------------------------------------------------------------------------------------------

  /** The `n` characters of `s` from position `i`, taken one at a time. */
  function Chars(s: string, i: nat, n: nat): (r: string)
    requires i + n <= |s|
    ensures |r| == n
    decreases n
  {
    if n == 0 then [] else [s[i]] + Chars(s, i + 1, n - 1)
  }

  lemma {:induction false} CharsIndex(s: string, i: nat, n: nat)
    requires i + n <= |s|
    ensures forall k :: 0 <= k < n ==> Chars(s, i, n)[k] == s[i + k]
    decreases n
  {
    if n > 0 {
      CharsIndex(s, i + 1, n - 1);
      var r := Chars(s, i, n);
      forall k | 0 < k < n ensures r[k] == s[i + k] {
        assert r[k] == Chars(s, i + 1, n - 1)[k - 1];
      }
    }
  }

  /** `(:(?P<S>\d{2}))?` at position `i` of `s`. */
  function SecondsAt(s: string, i: nat): (r: Option<string>)
    requires i <= |s|
    ensures r.Some? ==> i + 3 <= |s| && TwoDigits(r.value)
  {
    if i + 3 <= |s| && s[i] == ':' && IsDigit(s[i + 1]) && IsDigit(s[i + 2]) then Some([s[i + 1], s[i + 2]])
    else None
  }

  /** `(\.(?P<f>\d+))?` at position `i` of `s`; the digit run is taken in full. */
  function FractionAt(s: string, i: nat): (r: Option<string>)
    requires i <= |s|
    ensures r.Some? ==> i + 1 + |r.value| <= |s| && 1 <= |r.value| && AllDigits(r.value)
  {
    if i + 2 <= |s| && s[i] == '.' && IsDigit(s[i + 1]) then
      var n := DigitRun(s, i + 1);
      DigitRunDigits(s, i + 1);
      CharsIndex(s, i + 1, n);
      Some(Chars(s, i + 1, n))
    else None
  }

  /** `(?P<tz>([\+-]\d{2}:?\d{2})|[Zz])?` at position `i` of `s`; `:?` first tries the colon. */
  function ZoneAt(s: string, i: nat): (r: Option<string>)
    requires i <= |s|
    ensures r.Some? ==> i + |r.value| <= |s| && IsZoneToken(r.value)
  {
    if i + 1 <= |s| && (s[i] == 'Z' || s[i] == 'z') then Some([s[i]])
    else if i + 6 <= |s| && IsColonOffset([s[i], s[i + 1], s[i + 2], s[i + 3], s[i + 4], s[i + 5]]) then
      Some([s[i], s[i + 1], s[i + 2], s[i + 3], s[i + 4], s[i + 5]])
    else if i + 5 <= |s| && IsCompactOffset([s[i], s[i + 1], s[i + 2], s[i + 3], s[i + 4]]) then
      Some([s[i], s[i + 1], s[i + 2], s[i + 3], s[i + 4]])
    else None
  }

  /** The seconds, fraction and zone groups; each is None when it did not participate. */
  type Optionals = (Option<string>, Option<string>, Option<string>)

  predicate OptionalsWellFormed(o: Optionals) {
    && (o.0.Some? ==> TwoDigits(o.0.value))
    && (o.1.Some? ==> 1 <= |o.1.value| && AllDigits(o.1.value))
    && (o.2.Some? ==> IsZoneToken(o.2.value))
  }

  /** The three optional groups, read in turn from position `i` of `s`, after the mandatory part. */
  function OptionalGroups(s: string, i: nat): (r: Optionals)
    requires i <= |s|
    ensures OptionalsWellFormed(r)
  {
    var second := SecondsAt(s, i);
    var j := i + |Part(":", second)|;
    var fraction := FractionAt(s, j);
    var k := j + |Part(".", fraction)|;
    (second, fraction, ZoneAt(s, k))
  }

  /** The fixed-width part after a year of `y` digits: `-mm-dd[T ]HH:MM`. */
  predicate MandatoryAt(s: string, y: nat) {
    && y + 12 <= |s|
    && s[y] == '-' && IsDigit(s[y + 1]) && IsDigit(s[y + 2])
    && s[y + 3] == '-' && IsDigit(s[y + 4]) && IsDigit(s[y + 5])
    && (s[y + 6] == 'T' || s[y + 6] == ' ')
    && IsDigit(s[y + 7]) && IsDigit(s[y + 8]) && s[y + 9] == ':' && IsDigit(s[y + 10]) && IsDigit(s[y + 11])
  }

  /** The groups of a match with a year of `y` digits, read from their fixed positions. */
  function Assemble(s: string, y: nat, o: Optionals): (g: Groups)
    requires 2 <= y <= 4 && MandatoryAt(s, y)
  {
    Groups(s[..y], [s[y + 1], s[y + 2]], [s[y + 4], s[y + 5]], s[y + 6],
           [s[y + 7], s[y + 8]], [s[y + 10], s[y + 11]], o.0, o.1, o.2)
  }

  lemma AssembleWellFormed(s: string, y: nat, o: Optionals)
    requires 2 <= y <= 4 && MandatoryAt(s, y) && DigitsIn(s, 0, y) && OptionalsWellFormed(o)
    ensures WellFormed(Assemble(s, y, o))
  {
    DigitsInSlice(s, 0, y);
    assert s[0..y] == s[..y];
  }

  /** The match after a leading run of `y` digits: the fixed-width part, then the optional groups. */
  function MatchFrom(s: string, y: nat): (r: Option<Groups>)
    requires y <= |s| && DigitsIn(s, 0, y)
    ensures r.Some? ==> WellFormed(r.value)
  {
    if 2 <= y <= 4 && MandatoryAt(s, y) then
      var o := OptionalGroups(s, y + 12);
      AssembleWellFormed(s, y, o);
      Some(Assemble(s, y, o))
    else
      None
  }

  /**
   * `DATETIME_RE.match(s)`: the groups of the match anchored at the start of `s`, or None.
   * The year `\d{2,4}` must be followed by '-', so it is exactly the leading digit run.
   */
  function Match(s: string): (r: Option<Groups>)
    ensures r.Some? ==> WellFormed(r.value)
  {
    DigitRunDigits(s, 0);
    MatchFrom(s, DigitRun(s, 0))
  }

  // ---------------------------------------------------------------------------------------------
  // From groups to a datetime.
  // ---------------------------------------------------------------------------------------------

  /** Python's `int()` of a sign followed by digits, as in `int("-05")`. */
  function SignedInt(t: string): (r: int)
    requires 1 <= |t| && IsSign(t[0]) && AllDigits(t[1..])
    ensures (if r < 0 then -r else r) == ToNat(t[1..])
    ensures r < 0 ==> t[0] == '-'
    ensures t[0] == '-' ==> r <= 0
  {
    var magnitude: int := ToNat(t[1..]);
    if t[0] == '-' then -magnitude else magnitude
  }

  /**
   * `_parse_tzinfo`, as written: the hours are the signed first three characters, the minutes
   * the last two, and the minutes are negated only when the sign is '-' AND the hours are 0.
   * The result is the offset in minutes that `timedelta(hours=hours, minutes=minutes)` denotes.
   */
  function ParseTzinfo(zone: Option<string>): (r: Option<int>)
    requires zone.Some? ==> IsZoneToken(zone.value)
    ensures r.None? <==> zone.None?
    ensures zone.Some? && IsUtcToken(zone.value) ==> r == Some(0)
  {
    match zone
    case None => None
    case Some(z) =>
      if IsUtcToken(z) then Some(0)
      else
        var hours := SignedInt(z[..3]);
        var minutes: int := ToNat(z[|z| - 2..]);
        Some(hours * 60 + (if z[0] == '-' && hours == 0 then -minutes else minutes))
  }

  /**
   * The arguments handed to the `datetime` constructor: `int()` of each group, 0 for an absent
   * second or fraction, and the fraction digits used as a raw microsecond count.
   */
  function Fields(g: Groups, offset: Option<int>): (d: DateTime)
    requires WellFormed(g)
    ensures d.year < 10000 && d.month < 100 && d.day < 100
    ensures d.hour < 100 && d.minute < 100 && d.second < 100
    ensures d.offset == offset
  {
    DateTime(ToNat(g.year), ToNat(g.month), ToNat(g.day), ToNat(g.hour), ToNat(g.minute),
             if g.second.Some? then ToNat(g.second.value) else 0,
             if g.fraction.Some? then ToNat(g.fraction.value) else 0,
             offset)
  }

  /**
   * The constructor call itself. `valid` stands for the argument validation of Python's `timezone` and
   * `datetime` constructors (offset strictly inside one day, day within its month, and so on).
   */
  function Construct(d: DateTime, valid: DateTime -> bool): (r: Result<DateTime, LoadError>)
    ensures r.Success? <==> valid(d)
    ensures r.Success? ==> r.value == d
  {
    if valid(d) then Success(d) else Failure(Rejected(d))
  }

  /** `DateTimeSerializer.load`. */
  function Load(s: string, valid: DateTime -> bool): (r: Result<DateTime, LoadError>)
    ensures r == Failure(NoMatch(s)) <==> Match(s).None?
    ensures r.Success? ==> valid(r.value)
  {
    match Match(s)
    case None => Failure(NoMatch(s))
    case Some(g) => Construct(Fields(g, ParseTzinfo(g.zone)), valid)
  }

  /**
   * The offset parsing the source evidently intends: every numeric zone `±HH[:]MM` denotes
   * sign × (HH hours + MM minutes), so "-05:30" is five and a half hours behind UTC.
   */
  function ParseTzinfoCorrected(zone: Option<string>): (r: Option<int>)
    requires zone.Some? ==> IsZoneToken(zone.value)
    ensures r.None? <==> zone.None?
    ensures zone.Some? && IsUtcToken(zone.value) ==> r == Some(0)
  {
    match zone
    case None => None
    case Some(z) =>
      if IsUtcToken(z) then Some(0)
      else
        var magnitude: int := 60 * ToNat(z[1..3]) + ToNat(z[|z| - 2..]);
        Some(if z[0] == '-' then -magnitude else magnitude)
  }

  /** `load` with the corrected offset parsing; everything else as in `Load`. */
  function LoadCorrected(s: string, valid: DateTime -> bool): (r: Result<DateTime, LoadError>)
    ensures r == Failure(NoMatch(s)) <==> Match(s).None?
    ensures r.Success? ==> valid(r.value)
  {
    match Match(s)
    case None => Failure(NoMatch(s))
    case Some(g) => Construct(Fields(g, ParseTzinfoCorrected(g.zone)), valid)
  }

  // ---------------------------------------------------------------------------------------------
  // `dump`: `isoformat()` + 'Z'.
  // ---------------------------------------------------------------------------------------------

  /** The field ranges every Python `datetime` object satisfies. */
  predicate Representable(d: DateTime) {
    && 1 <= d.year <= 9999 && 1 <= d.month <= 12 && 1 <= d.day <= 31
    && 0 <= d.hour <= 23 && 0 <= d.minute <= 59 && 0 <= d.second <= 59
    && 0 <= d.microsecond <= 999999
    && (d.offset.Some? ==> -1440 < d.offset.value < 1440)
  }

  /** `_format_offset`: sign, then the absolute offset as `HH:MM`. */
  function FormatOffset(offset: int): (z: string)
    requires -1440 < offset < 1440
    ensures IsColonOffset(z)
  {
    var sign := if offset < 0 then '-' else '+';
    var a := if offset < 0 then -offset else offset;
    [sign] + Pad(a / 60, 2) + ":" + Pad(a % 60, 2)
  }

  /** `datetime.isoformat()` with the default separator 'T' and timespec 'auto'. */
  function IsoFormat(d: DateTime): (s: string)
    requires Representable(d)
    ensures |s| == 19 + (if d.microsecond != 0 then 7 else 0) + (if d.offset.Some? then 6 else 0)
    ensures s[4] == '-' && s[10] == 'T'
  {
    Pad(d.year, 4) + "-" + Pad(d.month, 2) + "-" + Pad(d.day, 2) + "T"
      + Pad(d.hour, 2) + ":" + Pad(d.minute, 2) + ":" + Pad(d.second, 2)
      + (if d.microsecond != 0 then "." + Pad(d.microsecond, 6) else "")
      + (if d.offset.Some? then FormatOffset(d.offset.value) else "")
  }

  /** `DateTimeSerializer.dump`. */
  function Dump(d: DateTime): (s: string)
    requires Representable(d)
    ensures |s| > 0 && s[|s| - 1] == 'Z'
  {
    IsoFormat(d) + "Z"
  }
}
