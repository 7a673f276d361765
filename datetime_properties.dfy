/**
 * What the date-time codec promises: the matcher agrees with the pattern, trailing text is
 * ignored, the group-to-field conversion has the quirks of `load`, and `Load` inverts
 * `Dump` exactly where the offset parsing allows it.
 */
module DateTimeProperties {
  import opened Wrappers
  import opened Decimal
  import opened DateTimeSerializer

  // ---------------------------------------------------------------------------------------------
  // The matcher against the grammar.
  // ---------------------------------------------------------------------------------------------

  /** The text `p` occurs in `s` at position `i`. */
  predicate At(s: string, i: nat, p: string) {
    i + |p| <= |s| && forall k :: 0 <= k < |p| ==> s[i + k] == p[k]
  }

  /** A concatenation occurs at `i` exactly when its two halves occur one after the other. */
  lemma AtConcat(s: string, i: nat, p: string, q: string)
    ensures At(s, i, p + q) <==> At(s, i, p) && At(s, i + |p|, q)
  {
    if At(s, i, p) && At(s, i + |p|, q) {
      forall k | 0 <= k < |p + q| ensures s[i + k] == (p + q)[k] {
        if k >= |p| {
          assert s[i + |p| + (k - |p|)] == q[k - |p|];
        }
      }
    }
    if At(s, i, p + q) {
      forall k | 0 <= k < |p| ensures s[i + k] == p[k] {
        assert (p + q)[k] == p[k];
      }
      forall k | 0 <= k < |q| ensures s[i + |p| + k] == q[k] {
        assert (p + q)[|p| + k] == q[k];
      }
    }
  }

  /** Occurring at the start is being a prefix. */
  lemma AtStart(s: string, p: string)
    ensures At(s, 0, p) <==> p <= s
  {
    if At(s, 0, p) {
      assert s[..|p|] == p;
    }
  }

  lemma AtOfConcat(a: string, b: string)
    ensures At(a + b, 0, a) && At(a + b, |a|, b)
  {
    assert forall k :: 0 <= k < |b| ==> (a + b)[|a| + k] == b[k];
  }

  /** A character from which the matched text could go on: a digit or one of `:.+-Zz`. */
  predicate Continues(c: char) {
    IsDigit(c) || c == ':' || c == '.' || c == '+' || c == '-' || c == 'Z' || c == 'z'
  }

  /** `t` cannot extend a match consumed as `g`: a zone closes the pattern, otherwise `t` must stop. */
  predicate Stops(g: Groups, t: string) {
    g.zone.Some? || t == [] || !Continues(t[0])
  }

  /** The same, for the text of `s` from position `j` on. */
  predicate StopsAt(g: Groups, s: string, j: nat) {
    g.zone.Some? || j >= |s| || !Continues(s[j])
  }

  /** Nothing at position `j` can be taken as a digit, a fraction or seconds. */
  predicate ClosedAt(s: string, j: nat) {
    j >= |s| || (!IsDigit(s[j]) && s[j] != '.' && s[j] != ':')
  }

  lemma SecondsSound(s: string, i: nat)
    requires i <= |s|
    ensures At(s, i, Part(":", SecondsAt(s, i)))
  {
  }

  lemma FractionSound(s: string, i: nat)
    requires i <= |s|
    ensures At(s, i, Part(".", FractionAt(s, i)))
  {
    var r := FractionAt(s, i);
    if r.Some? {
      var p := Part(".", r);
      CharsIndex(s, i + 1, |r.value|);
      forall k | 0 <= k < |p| ensures s[i + k] == p[k] {
        if k > 0 {
          assert p[k] == r.value[k - 1];
        }
      }
    }
  }

  lemma ZoneSound(s: string, i: nat)
    requires i <= |s|
    ensures At(s, i, Part("", ZoneAt(s, i)))
  {
    var r := ZoneAt(s, i);
    if r.Some? {
      assert Part("", r) == r.value;
    }
  }

  /** The optional groups `OptionalGroups` reads are the text that follows position `i`. */
  lemma OptionalSound(s: string, i: nat)
    requires i <= |s|
    ensures var r := OptionalGroups(s, i); At(s, i, Part(":", r.0) + Part(".", r.1) + Part("", r.2))
  {
    var second := SecondsAt(s, i);
    var j := i + |Part(":", second)|;
    var fraction := FractionAt(s, j);
    var k := j + |Part(".", fraction)|;
    var zone := ZoneAt(s, k);
    OptionalGroupsOf(s, i, (second, fraction, zone));
    var p1, p2, p3 := Part(":", second), Part(".", fraction), Part("", zone);
    SecondsSound(s, i);
    FractionSound(s, j);
    ZoneSound(s, k);
    AtConcat(s, j, p2, p3);
    AtConcat(s, i, p1, p2 + p3);
    Assoc(p1, p2, p3);
  }

  lemma SecondsOf(s: string, i: nat, second: Option<string>)
    requires second.Some? ==> TwoDigits(second.value)
    requires At(s, i, Part(":", second))
    requires second.None? ==> i >= |s| || s[i] != ':'
    ensures i <= |s| && SecondsAt(s, i) == second
  {
    if second.Some? {
      var p := Part(":", second);
      assert p[0] == ':' && p[1] == second.value[0] && p[2] == second.value[1];
      assert s[i] == p[0] && s[i + 1] == p[1] && s[i + 2] == p[2];
      assert [s[i + 1], s[i + 2]] == second.value;
    }
  }

  lemma FractionOf(s: string, i: nat, fraction: Option<string>)
    requires fraction.Some? ==> 1 <= |fraction.value| && AllDigits(fraction.value)
    requires At(s, i, Part(".", fraction))
    requires ClosedAt(s, i + |Part(".", fraction)|)
    ensures i <= |s| && FractionAt(s, i) == fraction
    ensures i >= |s| || s[i] != ':'
  {
    if fraction.Some? {
      var f := fraction.value;
      var p := Part(".", fraction);
      var n := |f|;
      assert p[0] == '.';
      forall k | i + 1 <= k < i + 1 + n ensures s[k] == f[k - (i + 1)] && IsDigit(s[k]) {
        assert p[k - i] == f[k - (i + 1)];
      }
      assert DigitsIn(s, i + 1, i + 1 + n);
      DigitRunUnique(s, i + 1, n);
      CharsIndex(s, i + 1, n);
      assert Chars(s, i + 1, n) == f;
    }
  }

  lemma ZoneOf(s: string, i: nat, zone: Option<string>)
    requires zone.Some? ==> IsZoneToken(zone.value)
    requires At(s, i, Part("", zone))
    requires zone.None? ==> i >= |s| || !Continues(s[i])
    ensures i <= |s| && ZoneAt(s, i) == zone
    ensures ClosedAt(s, i)
  {
    if zone.Some? {
      var z := zone.value;
      assert Part("", zone) == z;
      assert s[i] == z[0];
      if IsColonOffset(z) {
        assert [s[i], s[i + 1], s[i + 2], s[i + 3], s[i + 4], s[i + 5]] == z;
      } else if IsCompactOffset(z) {
        assert [s[i], s[i + 1], s[i + 2], s[i + 3], s[i + 4]] == z;
      } else {
        assert [s[i]] == z;
      }
    }
  }

  /** The fraction and zone groups are read back from the text after the seconds. */
  lemma AfterSecondsAt(s: string, j: nat, g: Groups)
    requires WellFormed(g)
    requires At(s, j, Part(".", g.fraction) + Part("", g.zone))
    requires StopsAt(g, s, j + |Part(".", g.fraction) + Part("", g.zone)|)
    ensures j <= |s| && FractionAt(s, j) == g.fraction
    ensures ZoneAt(s, j + |Part(".", g.fraction)|) == g.zone
    ensures j >= |s| || s[j] != ':'
  {
    var p2, p3 := Part(".", g.fraction), Part("", g.zone);
    AtConcat(s, j, p2, p3);
    ZoneOf(s, j + |p2|, g.zone);
    FractionOf(s, j, g.fraction);
  }

  /** `OptionalGroups` is the three readers applied in turn. */
  lemma OptionalGroupsOf(s: string, i: nat, o: Optionals)
    requires i <= |s| && SecondsAt(s, i) == o.0
    requires i + |Part(":", o.0)| <= |s| && FractionAt(s, i + |Part(":", o.0)|) == o.1
    requires i + |Part(":", o.0)| + |Part(".", o.1)| <= |s|
    requires ZoneAt(s, i + |Part(":", o.0)| + |Part(".", o.1)|) == o.2
    ensures OptionalGroups(s, i) == o
  {
  }

  /** The optional groups of a well-formed match are read back from its tail. */
  lemma TailAt(s: string, i: nat, g: Groups)
    requires WellFormed(g) && At(s, i, Tail(g)) && StopsAt(g, s, i + |Tail(g)|)
    ensures i <= |s| && OptionalGroups(s, i) == (g.second, g.fraction, g.zone)
  {
    var p1, p2, p3 := Part(":", g.second), Part(".", g.fraction), Part("", g.zone);
    Assoc(p1, p2, p3);
    AtConcat(s, i, p1, p2 + p3);
    AfterSecondsAt(s, i + |p1|, g);
    SecondsOf(s, i, g.second);
    OptionalGroupsOf(s, i, (g.second, g.fraction, g.zone));
  }

  /** The fixed-width groups of `g` are the characters of `s` after a year of `y` digits. */
  predicate AtPieces(s: string, y: nat, g: Groups)
    requires y + 12 <= |s|
  {
    && s[..y] == g.year && [s[y + 1], s[y + 2]] == g.month && [s[y + 4], s[y + 5]] == g.day
    && s[y + 6] == g.sep && [s[y + 7], s[y + 8]] == g.hour && [s[y + 10], s[y + 11]] == g.minute
  }

  /** The mandatory part of a well-formed match is found again at the start of `s`. */
  lemma HeadOf(s: string, g: Groups)
    requires WellFormed(g) && At(s, 0, Head(g))
    ensures var y := |g.year|; DigitRun(s, 0) == y && MandatoryAt(s, y) && AtPieces(s, y, g)
  {
    var y := |g.year|;
    var h := Head(g);
    forall k | 0 <= k < y ensures s[k] == g.year[k] && IsDigit(s[k]) {
      assert h[k] == g.year[k];
    }
    assert h[y] == '-' && h[y + 1] == g.month[0] && h[y + 2] == g.month[1];
    assert h[y + 3] == '-' && h[y + 4] == g.day[0] && h[y + 5] == g.day[1] && h[y + 6] == g.sep;
    assert h[y + 7] == g.hour[0] && h[y + 8] == g.hour[1] && h[y + 9] == ':';
    assert h[y + 10] == g.minute[0] && h[y + 11] == g.minute[1];
    assert s[..y] == g.year;
    DigitRunUnique(s, 0, y);
  }

  /** `Match` reassembles the groups from the pieces of `s`. */
  lemma MatchAt(s: string, g: Groups)
    requires WellFormed(g)
    requires var y := |g.year|;
      && DigitRun(s, 0) == y && MandatoryAt(s, y) && AtPieces(s, y, g)
      && OptionalGroups(s, y + 12) == (g.second, g.fraction, g.zone)
    ensures Match(s) == Some(g)
  {
    var y := |g.year|;
    var o := OptionalGroups(s, y + 12);
    assert Match(s) == Some(Assemble(s, y, o));
  }

  /** The rendering of `g` followed by `t`: the head, then the tail, then a stop. */
  lemma RenderAt(g: Groups, t: string)
    requires WellFormed(g) && Stops(g, t)
    ensures var s := Render(g) + t;
      At(s, 0, Head(g)) && At(s, |Head(g)|, Tail(g)) && StopsAt(g, s, |Head(g)| + |Tail(g)|)
  {
    var s := Render(g) + t;
    AtOfConcat(Render(g), t);
    AtConcat(s, 0, Head(g), Tail(g));
    if t != [] {
      assert s[|Render(g)|] == t[0];
    }
  }

  /**
   * Parsing what a match consumed gives the same groups back, also with any text after it that
   * cannot extend the match.
   */
  lemma {:induction false} MatchRender(g: Groups, t: string)
    requires WellFormed(g) && Stops(g, t)
    ensures Match(Render(g) + t) == Some(g)
  {
    RenderAt(g, t);
    MatchOf(Render(g) + t, g);
  }

  /** A text holding the head and the tail of `g`, then a stop, matches as `g`. */
  lemma MatchOf(s: string, g: Groups)
    requires WellFormed(g) && At(s, 0, Head(g)) && At(s, |Head(g)|, Tail(g))
    requires StopsAt(g, s, |Head(g)| + |Tail(g)|)
    ensures Match(s) == Some(g)
  {
    HeadOf(s, g);
    TailAt(s, |Head(g)|, g);
    MatchAt(s, g);
  }

  /** The mandatory part `Match` assembles is the text at the start of the input. */
  lemma HeadOfAssemble(s: string, y: nat, o: Optionals)
    requires 2 <= y <= 4 && MandatoryAt(s, y) && DigitsIn(s, 0, y) && OptionalsWellFormed(o)
    ensures WellFormed(Assemble(s, y, o)) && At(s, 0, Head(Assemble(s, y, o)))
  {
    var g := Assemble(s, y, o);
    AssembleWellFormed(s, y, o);
    var h := Head(g);
    forall k | 0 <= k < |h| ensures s[k] == h[k] {
      if k < y {
        assert h[k] == g.year[k];
      }
    }
  }

  /** What `Match` returns is well formed, and its rendering is a prefix of the input. */
  lemma MatchSound(s: string)
    requires Match(s).Some?
    ensures WellFormed(Match(s).value) && Render(Match(s).value) <= s
  {
    var y := DigitRun(s, 0);
    var o := OptionalGroups(s, y + 12);
    var g := Assemble(s, y, o);
    assert Match(s) == Some(g);
    DigitRunDigits(s, 0);
    HeadOfAssemble(s, y, o);
    OptionalSound(s, y + 12);
    assert Tail(g) == Part(":", o.0) + Part(".", o.1) + Part("", o.2);
    AtConcat(s, 0, Head(g), Tail(g));
    AtStart(s, Render(g));
  }

  /** A text that begins with the rendering of well-formed groups matches. */
  lemma PrefixMatches(s: string, g: Groups)
    requires WellFormed(g) && Render(g) <= s
    ensures Match(s).Some?
  {
    AtStart(s, Render(g));
    AtConcat(s, 0, Head(g), Tail(g));
    HeadOf(s, g);
    var y := |g.year|;
    assert MatchFrom(s, y).Some?;
  }

  /** The zone reader takes any zone token that occurs at `k`. */
  lemma ZoneGreedy(s: string, k: nat, zone: Option<string>)
    requires zone.Some? ==> IsZoneToken(zone.value)
    requires At(s, k, Part("", zone))
    ensures k <= |s| && |Part("", zone)| <= |Part("", ZoneAt(s, k))|
  {
    if zone.Some? {
      ZoneOf(s, k, zone);
    }
  }

  /** The fraction reader takes any `.` and digits at `j`, and more only when a digit follows them. */
  lemma FractionGreedy(s: string, j: nat, f: string)
    requires 1 <= |f| && AllDigits(f) && At(s, j, "." + f)
    ensures FractionAt(s, j).Some?
    ensures var r := FractionAt(s, j).value; |f| <= |r| && (|f| < |r| ==> IsDigit(s[j + 1 + |f|]))
  {
    var p := "." + f;
    var n := |f|;
    assert s[j] == p[0] == '.';
    forall k | j + 1 <= k < j + 1 + n ensures IsDigit(s[k]) {
      assert s[k] == p[k - j] == f[k - j - 1];
    }
    DigitRunCovers(s, j + 1, n);
    DigitRunDigits(s, j + 1);
  }

  /** A text occurring at `k` begins with the character at `k`. */
  lemma AtFirst(s: string, k: nat, p: string)
    requires At(s, k, p)
    ensures |p| > 0 ==> k < |s| && s[k] == p[0]
  {
    if |p| > 0 {
      assert s[k + 0] == p[0];
    }
  }

  /** No zone begins with a digit, a '.' or a ':'. */
  lemma NoZoneAt(s: string, k: nat, zone: Option<string>)
    requires zone.Some? ==> IsZoneToken(zone.value)
    requires At(s, k, Part("", zone))
    requires k < |s| && (IsDigit(s[k]) || s[k] == '.' || s[k] == ':')
    ensures zone.None?
  {
    AtFirst(s, k, Part("", zone));
  }

  /** No fraction begins with a ':'. */
  lemma NoFractionAt(s: string, k: nat, fraction: Option<string>)
    requires At(s, k, Part(".", fraction))
    requires k < |s| && s[k] == ':'
    ensures fraction.None?
  {
    AtFirst(s, k, Part(".", fraction));
  }

  /** After the seconds, the fraction and zone readers consume at least what any groups put there. */
  lemma AfterSecondsGreedy(s: string, j: nat, g: Groups)
    requires WellFormed(g) && At(s, j, Part(".", g.fraction) + Part("", g.zone))
    ensures j <= |s| && j + |Part(".", FractionAt(s, j))| <= |s|
    ensures var f := Part(".", FractionAt(s, j));
      |Part(".", g.fraction) + Part("", g.zone)| <= |f| + |Part("", ZoneAt(s, j + |f|))|
  {
    var p2, p3 := Part(".", g.fraction), Part("", g.zone);
    AtConcat(s, j, p2, p3);
    FractionSound(s, j);
    var f := FractionAt(s, j);
    if g.fraction.Some? {
      FractionGreedy(s, j, g.fraction.value);
      if |f.value| == |g.fraction.value| {
        ZoneGreedy(s, j + |p2|, g.zone);
      } else {
        // a longer digit run leaves a digit where the zone would begin
        NoZoneAt(s, j + |p2|, g.zone);
      }
    } else if f.None? {
      ZoneGreedy(s, j, g.zone);
    } else {
      NoZoneAt(s, j, g.zone);
    }
  }

  /** The three readers, applied in turn from `i`, consume at least the tail of any groups there. */
  lemma ReadersGreedy(s: string, i: nat, g: Groups)
    requires WellFormed(g) && At(s, i, Tail(g))
    ensures i <= |s| && var j := i + |Part(":", SecondsAt(s, i))|;
      && j <= |s| && j + |Part(".", FractionAt(s, j))| <= |s|
      && |Tail(g)| <= |Part(":", SecondsAt(s, i))| + |Part(".", FractionAt(s, j))|
                       + |Part("", ZoneAt(s, j + |Part(".", FractionAt(s, j))|))|
  {
    var p1, p2, p3 := Part(":", g.second), Part(".", g.fraction), Part("", g.zone);
    Assoc(p1, p2, p3);
    AtConcat(s, i, p1, p2 + p3);
    if g.second.Some? {
      SecondsOf(s, i, g.second);
      AfterSecondsGreedy(s, i + 3, g);
    } else if SecondsAt(s, i).Some? {
      // a ':' begins neither a fraction nor a zone, so the tail of `g` is empty
      AtConcat(s, i, p2, p3);
      NoFractionAt(s, i, g.fraction);
      NoZoneAt(s, i, g.zone);
      FractionSound(s, i + 3);
    } else {
      AfterSecondsGreedy(s, i, g);
    }
  }

  /** What `OptionalGroups` consumes is what its three readers take in turn. */
  lemma OptionalLength(s: string, i: nat)
    requires i <= |s|
    ensures var j := i + |Part(":", SecondsAt(s, i))|;
      && j <= |s| && j + |Part(".", FractionAt(s, j))| <= |s|
      && var o := OptionalGroups(s, i);
      |Part(":", o.0)| + |Part(".", o.1)| + |Part("", o.2)|
      == |Part(":", SecondsAt(s, i))| + |Part(".", FractionAt(s, j))|
         + |Part("", ZoneAt(s, j + |Part(".", FractionAt(s, j))|))|
  {
    SecondsSound(s, i);
    FractionSound(s, i + |Part(":", SecondsAt(s, i))|);
  }

  /** The optional groups are read greedily: at least the tail of any groups at `i` is consumed. */
  lemma TailGreedy(s: string, i: nat, g: Groups)
    requires WellFormed(g) && At(s, i, Tail(g))
    ensures i <= |s| && var o := OptionalGroups(s, i);
      |Tail(g)| <= |Part(":", o.0)| + |Part(".", o.1)| + |Part("", o.2)|
  {
    ReadersGreedy(s, i, g);
    OptionalLength(s, i);
  }

  /** What a match after a year of `y` digits consumes: the mandatory part, then the optional groups. */
  lemma MatchLength(s: string, y: nat)
    requires y <= |s| && DigitRun(s, 0) == y && 2 <= y <= 4 && MandatoryAt(s, y)
    ensures Match(s).Some?
    ensures var o := OptionalGroups(s, y + 12);
      |Render(Match(s).value)| == y + 12 + |Part(":", o.0)| + |Part(".", o.1)| + |Part("", o.2)|
  {
    var o := OptionalGroups(s, y + 12);
    DigitRunDigits(s, 0);
    var m := Assemble(s, y, o);
    AssembleWellFormed(s, y, o);
    assert Match(s) == Some(m);
  }

  /**
   * The match is the longest one: whatever well-formed groups are rendered at the start of `s`,
   * `Match` consumes at least as much, each optional group being taken whenever it can be.
   */
  lemma LongestMatch(s: string, g: Groups)
    requires WellFormed(g) && Render(g) <= s
    ensures Match(s).Some? && |Render(g)| <= |Render(Match(s).value)|
  {
    AtStart(s, Render(g));
    AtConcat(s, 0, Head(g), Tail(g));
    HeadOf(s, g);
    TailGreedy(s, |Head(g)|, g);
    MatchLength(s, |g.year|);
  }

  /** `Match` fails exactly when no well-formed group text is a prefix of the input. */
  lemma NoMatchIff(s: string)
    ensures Match(s).None? <==> forall g :: WellFormed(g) ==> !(Render(g) <= s)
  {
    if Match(s).Some? {
      MatchSound(s);
    } else {
      forall g | WellFormed(g) ensures !(Render(g) <= s) {
        if Render(g) <= s {
          PrefixMatches(s, g);
        }
      }
    }
  }


  /** `load` raises its parse error exactly when the input does not begin with the pattern. */
  lemma LoadFailsIff(s: string, valid: DateTime -> bool)
    ensures Load(s, valid).Failure? && Load(s, valid).error.NoMatch?
        <==> forall g :: WellFormed(g) ==> !(Render(g) <= s)
  {
    NoMatchIff(s);
  }

  /** Only the matched prefix matters: the rest of the input is ignored. */
  lemma LoadIgnoresRest(s: string, valid: DateTime -> bool)
    requires Match(s).Some?
    ensures Load(s, valid) == Load(Render(Match(s).value), valid)
  {
    var g := Match(s).value;
    MatchSound(s);
    MatchRender(g, []);
    assert Render(g) + [] == Render(g);
  }

  /** Once a zone has been read, anything may follow. */
  lemma LoadAfterZone(g: Groups, t: string, valid: DateTime -> bool)
    requires WellFormed(g) && g.zone.Some?
    ensures Load(Render(g) + t, valid) == Load(Render(g), valid)
  {
    MatchRender(g, t);
    MatchRender(g, []);
    assert Render(g) + [] == Render(g);
  }

  // ---------------------------------------------------------------------------------------------
  // Group-to-field conversion.
  // ---------------------------------------------------------------------------------------------

  /** The digit run from `i` does not see a change made before `i`. */
  lemma {:induction false} DigitRunFrame(a: string, p: nat, c: char, i: nat)
    requires p < i <= |a|
    ensures DigitRun(a[p := c], i) == DigitRun(a, i)
    decreases |a| - i
  {
    if i < |a| && IsDigit(a[i]) {
      DigitRunFrame(a, p, c, i + 1);
    }
  }

  lemma SecondsFrame(a: string, p: nat, c: char, i: nat)
    requires p < i <= |a|
    ensures SecondsAt(a[p := c], i) == SecondsAt(a, i)
  {
  }

  lemma FractionFrame(a: string, p: nat, c: char, j: nat)
    requires p < j <= |a|
    ensures FractionAt(a[p := c], j) == FractionAt(a, j)
  {
    var b := a[p := c];
    if j + 2 <= |a| && a[j] == '.' && IsDigit(a[j + 1]) {
      DigitRunFrame(a, p, c, j + 1);
      var n := DigitRun(a, j + 1);
      CharsIndex(a, j + 1, n);
      CharsIndex(b, j + 1, n);
      assert Chars(b, j + 1, n) == Chars(a, j + 1, n);
    }
  }

  lemma ZoneFrame(a: string, p: nat, c: char, k: nat)
    requires p < k <= |a|
    ensures ZoneAt(a[p := c], k) == ZoneAt(a, k)
  {
  }

  /** The optional groups read from `i` do not see a change made before `i`. */
  lemma OptionalGroupsFrame(a: string, p: nat, c: char, i: nat)
    requires p < i <= |a|
    ensures OptionalGroups(a[p := c], i) == OptionalGroups(a, i)
  {
    var second := SecondsAt(a, i);
    var j := i + |Part(":", second)|;
    var fraction := FractionAt(a, j);
    var k := j + |Part(".", fraction)|;
    var o := (second, fraction, ZoneAt(a, k));
    SecondsFrame(a, p, c, i);
    FractionFrame(a, p, c, j);
    ZoneFrame(a, p, c, k);
    OptionalGroupsOf(a, i, o);
    OptionalGroupsOf(a[p := c], i, o);
  }

  lemma SeparatorSwapMatched(a: string, y: nat)
    requires y + 6 < |a| && DigitRun(a, 0) == y == DigitRun(a[y + 6 := ' '], 0)
    requires Match(a).Some?
    ensures Match(a[y + 6 := ' ']) == Some(Match(a).value.(sep := ' '))
  {
    var b := a[y + 6 := ' '];
    var o := OptionalGroups(a, y + 12);
    var g := Assemble(a, y, o);
    assert Match(a) == Some(g);
    OptionalGroupsFrame(a, y + 6, ' ', y + 12);
    assert b[..y] == a[..y];
    assert Assemble(b, y, o) == g.(sep := ' ');
    assert Match(b) == Some(Assemble(b, y, OptionalGroups(b, y + 12)));
  }

  /** Two texts that differ only in the separator character match alike. */
  lemma SeparatorSwap(a: string, y: nat)
    requires y + 6 < |a| && a[y + 6] == 'T'
    requires DigitRun(a, 0) == y == DigitRun(a[y + 6 := ' '], 0)
    ensures Match(a).Some? <==> Match(a[y + 6 := ' ']).Some?
    ensures Match(a).Some? ==> Match(a[y + 6 := ' ']) == Some(Match(a).value.(sep := ' '))
  {
    if Match(a).Some? {
      SeparatorSwapMatched(a, y);
    } else {
      assert MandatoryAt(a, y) <==> MandatoryAt(a[y + 6 := ' '], y);
    }
  }

  lemma SeparatorKeepsRun(s: string, c: char)
    requires DigitRun(s, 0) + 6 < |s|
    ensures DigitRun(s[DigitRun(s, 0) + 6 := c], 0) == DigitRun(s, 0)
  {
    var y := DigitRun(s, 0);
    var a := s[y + 6 := c];
    DigitRunDigits(s, 0);
    assert forall k :: 0 <= k <= y ==> a[k] == s[k];
    DigitRunUnique(a, 0, y);
  }

  /** The separator character plays no part in the conversion to a datetime. */
  lemma FieldsIgnoreSeparator(g: Groups, c: char)
    requires WellFormed(g) && (c == 'T' || c == ' ')
    ensures WellFormed(g.(sep := c))
    ensures Fields(g, ParseTzinfo(g.zone)) == Fields(g.(sep := c), ParseTzinfo(g.(sep := c).zone))
  {
  }

  /**
   * 'T' and ' ' as the date/time separator give identical results: the same datetime, the same
   * constructor rejection, or (when the pattern does not match) the parse error for each text.
   */
  lemma SeparatorIrrelevant(s: string, valid: DateTime -> bool)
    requires DigitRun(s, 0) + 6 < |s|
    ensures var i := DigitRun(s, 0) + 6; var a, b := s[i := 'T'], s[i := ' '];
      || Load(a, valid) == Load(b, valid)
      || (Load(a, valid) == Failure(NoMatch(a)) && Load(b, valid) == Failure(NoMatch(b)))
  {
    var y := DigitRun(s, 0);
    var i := y + 6;
    var a, b := s[i := 'T'], s[i := ' '];
    SeparatorKeepsRun(s, 'T');
    SeparatorKeepsRun(s, ' ');
    assert b == a[i := ' '];
    SeparatorSwap(a, y);
    if Match(a).Some? {
      FieldsIgnoreSeparator(Match(a).value, ' ');
    }
  }

  /** An absent second and an absent fraction both become 0. */
  lemma AbsentFieldsAreZero(s: string, valid: DateTime -> bool)
    requires Load(s, valid).Success?
    ensures Match(s).value.second.None? ==> Load(s, valid).value.second == 0
    ensures Match(s).value.fraction.None? ==> Load(s, valid).value.microsecond == 0
  {
  }

  /** The fraction digits are an integer count of microseconds, not a decimal fraction of a second. */
  lemma FractionIsRawCount(s: string, valid: DateTime -> bool)
    requires Load(s, valid).Success? && Match(s).value.fraction.Some?
    ensures Load(s, valid).value.microsecond == ToNat(Match(s).value.fraction.value)
    ensures AllDigits("0" + Match(s).value.fraction.value)
    ensures Load(s, valid).value.microsecond == ToNat("0" + Match(s).value.fraction.value)
  {
    ToNatLeadingZero(Match(s).value.fraction.value);
  }

  /** Zone 'Z' or 'z' is UTC; no zone gives a naive datetime. */
  lemma ZoneKinds(s: string, valid: DateTime -> bool)
    requires Load(s, valid).Success?
    ensures Load(s, valid).value.offset.None? <==> Match(s).value.zone.None?
    ensures Match(s).value.zone == Some("Z") || Match(s).value.zone == Some("z")
        ==> Load(s, valid).value.offset == Some(0)
  {
  }

  /** The offset of a numeric zone: the signed hours, and minutes negated only for "-00". */
  lemma NumericOffset(z: string)
    requires IsColonOffset(z) || IsCompactOffset(z)
    ensures var hh: int, mm: int := ToNat(z[1..3]), ToNat(z[|z| - 2..]);
      ParseTzinfo(Some(z)) == Some(
        if z[0] == '+' then 60 * hh + mm
        else if hh == 0 then -mm
        else -60 * hh + mm)
  {
    assert z[..3][1..] == z[1..3];
  }

  /** The hours and minutes of a numeric zone, digit by digit. */
  lemma OffsetDigits(z: string)
    requires IsColonOffset(z) || IsCompactOffset(z)
    ensures ToNat(z[1..3]) == 10 * DigitValue(z[1]) + DigitValue(z[2])
    ensures ToNat(z[|z| - 2..]) == 10 * DigitValue(z[|z| - 2]) + DigitValue(z[|z| - 1])
  {
    ToNatPair(z[1..3]);
    ToNatPair(z[|z| - 2..]);
  }

  /** `NumericOffset` with the hours and minutes written out digit by digit. */
  lemma NumericOffsetDigits(z: string)
    requires IsColonOffset(z) || IsCompactOffset(z)
    ensures var hh, mm := 10 * DigitValue(z[1]) + DigitValue(z[2]), 10 * DigitValue(z[|z| - 2]) + DigitValue(z[|z| - 1]);
      ParseTzinfo(Some(z)) == Some(
        if z[0] == '+' then 60 * hh + mm
        else if hh == 0 then -mm
        else -60 * hh + mm)
  {
    NumericOffset(z);
    OffsetDigits(z);
  }

  /** "+05:30" is five and a half hours ahead of UTC. */
  lemma OffsetPlusColonExample()
    ensures ParseTzinfo(Some("+05:30")) == Some(330)
  {
    var z := "+05:30";
    assert z[0] == '+' && z[1] == '0' && z[2] == '5' && z[4] == '3' && z[5] == '0';
    NumericOffsetDigits(z);
  }

  /** "+0530", without the colon, is the same offset. */
  lemma OffsetPlusCompactExample()
    ensures ParseTzinfo(Some("+0530")) == Some(330)
  {
    var z := "+0530";
    assert z[0] == '+' && z[1] == '0' && z[2] == '5' && z[3] == '3' && z[4] == '0';
    NumericOffsetDigits(z);
  }

  /** "-00:30" is half an hour behind UTC: with zero hours the minutes are negated. */
  lemma OffsetMinusZeroHoursExample()
    ensures ParseTzinfo(Some("-00:30")) == Some(-30)
  {
    var z := "-00:30";
    assert z[0] == '-' && z[1] == '0' && z[2] == '0' && z[4] == '3' && z[5] == '0';
    NumericOffsetDigits(z);
  }

  /** "-05:30" is read as -4:30: the minutes keep their sign when the hours are not zero. */
  lemma OffsetMinusHoursExample()
    ensures ParseTzinfo(Some("-05:30")) == Some(-270)
  {
    var z := "-05:30";
    assert z[0] == '-' && z[1] == '0' && z[2] == '5' && z[4] == '3' && z[5] == '0';
    NumericOffsetDigits(z);
  }

  // ---------------------------------------------------------------------------------------------
  // Worked inputs.
  // ---------------------------------------------------------------------------------------------

  /** What `Load` makes of a rendered set of groups. */
  lemma LoadOfRender(g: Groups, valid: DateTime -> bool)
    requires WellFormed(g)
    ensures Load(Render(g), valid) == Construct(Fields(g, ParseTzinfo(g.zone)), valid)
  {
    MatchRender(g, []);
    assert Render(g) + [] == Render(g);
  }

  lemma RenderHalfSecond()
    ensures Render(Groups("2020", "01", "01", 'T', "10", "00", Some("00"), Some("5"), None))
         == "2020-01-01T10:00:00.5"
  {
  }

  lemma FieldsHalfSecond()
    ensures Fields(Groups("2020", "01", "01", 'T', "10", "00", Some("00"), Some("5"), None), None)
         == DateTime(2020, 1, 1, 10, 0, 0, 5, None)
  {
    assert ToNat("2020") == 2020 by {
      assert "2020"[..3] == "202" && "202"[..2] == "20" && "20"[..1] == "2" && "2"[..0] == "";
    }
    assert ToNat("01") == 1 by { assert "01"[..1] == "0" && "0"[..0] == ""; }
    assert ToNat("10") == 10 by { assert "10"[..1] == "1" && "1"[..0] == ""; }
    assert ToNat("00") == 0 by { assert "00"[..1] == "0" && "0"[..0] == ""; }
    assert ToNat("5") == 5 by { assert "5"[..0] == ""; }
  }

  /** ".5" is 5 microseconds, not half a second: the fraction digits are not scaled. */
  lemma FractionHalfSecondExample(valid: DateTime -> bool)
    requires valid(DateTime(2020, 1, 1, 10, 0, 0, 5, None))
    ensures Load("2020-01-01T10:00:00.5", valid) == Success(DateTime(2020, 1, 1, 10, 0, 0, 5, None))
  {
    var g := Groups("2020", "01", "01", 'T', "10", "00", Some("00"), Some("5"), None);
    RenderHalfSecond();
    LoadOfRender(g, valid);
    FieldsHalfSecond();
  }

  lemma RenderMicros()
    ensures Render(Groups("2020", "01", "01", 'T', "10", "00", Some("00"), Some("000123"), None))
         == "2020-01-01T10:00:00.000123"
  {
  }

  lemma FieldsMicros()
    ensures Fields(Groups("2020", "01", "01", 'T', "10", "00", Some("00"), Some("000123"), None), None)
         == DateTime(2020, 1, 1, 10, 0, 0, 123, None)
  {
    FieldsHalfSecond();
    assert ToNat("000123") == 123 by {
      assert "000123"[..5] == "00012" && "00012"[..4] == "0001" && "0001"[..3] == "000";
      assert "000"[..2] == "00" && "00"[..1] == "0" && "0"[..0] == "";
    }
  }

  /** ".000123" is 123 microseconds. */
  lemma FractionMicrosExample(valid: DateTime -> bool)
    requires valid(DateTime(2020, 1, 1, 10, 0, 0, 123, None))
    ensures Load("2020-01-01T10:00:00.000123", valid) == Success(DateTime(2020, 1, 1, 10, 0, 0, 123, None))
  {
    var g := Groups("2020", "01", "01", 'T', "10", "00", Some("00"), Some("000123"), None);
    RenderMicros();
    LoadOfRender(g, valid);
    FieldsMicros();
  }

  lemma RenderShortYear()
    ensures Render(Groups("20", "01", "01", 'T', "10", "00", None, None, None)) == "20-01-01T10:00"
  {
  }

  lemma FieldsShortYear()
    ensures Fields(Groups("20", "01", "01", 'T', "10", "00", None, None, None), None)
         == DateTime(20, 1, 1, 10, 0, 0, 0, None)
  {
    assert ToNat("20") == 20 by { assert "20"[..1] == "2" && "2"[..0] == ""; }
    assert ToNat("01") == 1 by { assert "01"[..1] == "0" && "0"[..0] == ""; }
    assert ToNat("10") == 10 by { assert "10"[..1] == "1" && "1"[..0] == ""; }
    assert ToNat("00") == 0 by { assert "00"[..1] == "0" && "0"[..0] == ""; }
  }

  /** A two-digit year is year 20, not 2020, and seconds may be left out. */
  lemma ShortYearExample(valid: DateTime -> bool)
    requires valid(DateTime(20, 1, 1, 10, 0, 0, 0, None))
    ensures Load("20-01-01T10:00", valid) == Success(DateTime(20, 1, 1, 10, 0, 0, 0, None))
  {
    var g := Groups("20", "01", "01", 'T', "10", "00", None, None, None);
    RenderShortYear();
    LoadOfRender(g, valid);
    FieldsShortYear();
  }

  lemma RenderUtc()
    ensures Render(Groups("2020", "01", "01", ' ', "10", "00", Some("00"), None, Some("Z")))
         == "2020-01-01 10:00:00Z"
  {
  }

  /** Text after the zone is ignored. */
  lemma TrailingTextExample(valid: DateTime -> bool)
    ensures Load("2020-01-01 10:00:00Zjunk", valid) == Load("2020-01-01 10:00:00Z", valid)
  {
    var h := Groups("2020", "01", "01", ' ', "10", "00", Some("00"), None, Some("Z"));
    assert WellFormed(h) && h.zone.Some?;
    RenderUtcJunk();
    RenderUtc();
    LoadAfterZone(h, "junk", valid);
  }

  lemma RenderUtcJunk()
    ensures Render(Groups("2020", "01", "01", ' ', "10", "00", Some("00"), None, Some("Z"))) + "junk"
         == "2020-01-01 10:00:00Zjunk"
  {
    RenderUtc();
  }

  // ---------------------------------------------------------------------------------------------
  // `load(dump(d))`.
  // ---------------------------------------------------------------------------------------------

  /** The groups `Load` finds in `Dump(d)`: `isoformat` always writes seconds, and a naive value gets 'Z'. */
  function DumpGroups(d: DateTime): (g: Groups)
    requires Representable(d)
    ensures WellFormed(g)
  {
    Groups(Pad(d.year, 4), Pad(d.month, 2), Pad(d.day, 2), 'T', Pad(d.hour, 2), Pad(d.minute, 2),
           Some(Pad(d.second, 2)),
           if d.microsecond != 0 then Some(Pad(d.microsecond, 6)) else None,
           Some(if d.offset.Some? then FormatOffset(d.offset.value) else "Z"))
  }

  lemma TwoChars(s: string)
    requires |s| == 2
    ensures s == [s[0], s[1]]
  {
  }

  lemma DumpHead(d: DateTime)
    requires Representable(d)
    ensures Head(DumpGroups(d))
         == Pad(d.year, 4) + "-" + Pad(d.month, 2) + "-" + Pad(d.day, 2) + "T" + Pad(d.hour, 2) + ":" + Pad(d.minute, 2)
  {
    var g := DumpGroups(d);
    TwoChars(g.month);
    TwoChars(g.day);
    TwoChars(g.hour);
    TwoChars(g.minute);
  }

  lemma Assoc(a: string, b: string, c: string)
    ensures (a + b) + c == a + (b + c)
  {
  }

  lemma DumpIsRender(d: DateTime)
    requires Representable(d)
    ensures Dump(d) == Render(DumpGroups(d)) + (if d.offset.Some? then "Z" else "")
  {
    var g := DumpGroups(d);
    DumpHead(d);
    var h, sec := Head(g), Pad(d.second, 2);
    var f, z := Part(".", g.fraction), Part("", g.zone);
    assert f == (if d.microsecond != 0 then "." + Pad(d.microsecond, 6) else "");
    assert z == g.zone.value;
    Assoc(h, ":", sec);
    Assoc(h, ":" + sec, f);
    Assoc(h, ":" + sec + f, z);
    if d.offset.None? {
      assert h + ":" + sec + f + "" == h + ":" + sec + f;
      assert Render(g) + "" == Render(g);
    }
  }

  /** The calendar fields survive `Load(Dump(d))` whatever the zone. */
  lemma DumpFields(d: DateTime)
    requires Representable(d)
    ensures Match(Dump(d)) == Some(DumpGroups(d))
    ensures forall offset :: Fields(DumpGroups(d), offset) == d.(offset := offset)
  {
    var g := DumpGroups(d);
    DumpIsRender(d);
    if d.offset.Some? {
      MatchRender(g, "Z");
    } else {
      MatchRender(g, []);
      assert Render(g) + [] == Render(g);
    }
  }

  /** For a naive `d`, `load(dump(d))` is `d` in UTC. */
  lemma LoadDumpNaive(d: DateTime, valid: DateTime -> bool)
    requires Representable(d) && d.offset.None?
    requires valid(d.(offset := Some(0)))
    ensures Load(Dump(d), valid) == Success(d.(offset := Some(0)))
  {
    DumpFields(d);
  }

  /** The offsets the as-written `_parse_tzinfo` reads back from `_format_offset`. */
  predicate OffsetSurvives(offset: int) {
    offset >= 0 || -offset < 60 || (-offset) % 60 == 0
  }

  lemma FormatOffsetPieces(offset: int)
    requires -1440 < offset < 1440
    ensures var z := FormatOffset(offset); var a := if offset < 0 then -offset else offset;
      && (z[0] == '-' <==> offset < 0) && IsSign(z[0])
      && ToNat(z[1..3]) == a / 60 && ToNat(z[|z| - 2..]) == a % 60
  {
    var z := FormatOffset(offset);
    var a := if offset < 0 then -offset else offset;
    assert z[1..3] == Pad(a / 60, 2);
    assert z[|z| - 2..] == Pad(a % 60, 2);
  }

  /** `_parse_tzinfo` inverts `_format_offset` exactly for the offsets of `OffsetSurvives`. */
  lemma OffsetRoundTrip(offset: int)
    requires -1440 < offset < 1440
    ensures ParseTzinfo(Some(FormatOffset(offset))) == Some(offset) <==> OffsetSurvives(offset)
  {
    FormatOffsetPieces(offset);
    NumericOffset(FormatOffset(offset));
  }

  /**
   * For an aware `d`, `load(dump(d))` gives `d` back exactly when its offset survives: the
   * trailing 'Z' is ignored after the numeric zone, and a negative offset with non-zero hours
   * and minutes comes back with the wrong sign on its minutes.
   */
  lemma LoadDumpAware(d: DateTime, valid: DateTime -> bool)
    requires Representable(d) && d.offset.Some? && valid(d)
    ensures Load(Dump(d), valid) == Success(d) <==> OffsetSurvives(d.offset.value)
  {
    DumpFields(d);
    OffsetRoundTrip(d.offset.value);
    var parsed := ParseTzinfo(Some(FormatOffset(d.offset.value)));
    assert Load(Dump(d), valid) == Construct(d.(offset := parsed), valid);
  }

  lemma PadTwo(n: nat)
    requires n < 100
    ensures Pad(n, 2) == [DigitChar(n / 10), DigitChar(n % 10)]
  {
    assert Pad(n / 10, 1) == Pad(0, 0) + [DigitChar(n / 10)];
  }

  lemma FormatOffsetExample()
    ensures FormatOffset(-330) == "-05:30"
  {
    PadTwo(5);
    PadTwo(30);
    assert DigitChar(0) == '0' && DigitChar(5) == '5' && DigitChar(3) == '3';
  }

  lemma CorrectedOffsetExample()
    ensures ParseTzinfoCorrected(Some("-05:30")) == Some(-330)
  {
    OffsetDigits("-05:30");
  }

  /**
   * A time five and a half hours behind UTC is dumped with "-05:30", which the as-written
   * parser reads back as -4:30 and the corrected one as -5:30.
   */
  lemma NegativeOffsetCounterexample(valid: DateTime -> bool)
    requires valid(DateTime(2020, 1, 1, 10, 0, 0, 0, Some(-330)))
    ensures FormatOffset(-330) == "-05:30"
    ensures ParseTzinfo(Some("-05:30")) == Some(-270)
    ensures ParseTzinfoCorrected(Some("-05:30")) == Some(-330)
    ensures Load(Dump(DateTime(2020, 1, 1, 10, 0, 0, 0, Some(-330))), valid)
         != Success(DateTime(2020, 1, 1, 10, 0, 0, 0, Some(-330)))
  {
    FormatOffsetExample();
    OffsetMinusHoursExample();
    CorrectedOffsetExample();
    LoadDumpAware(DateTime(2020, 1, 1, 10, 0, 0, 0, Some(-330)), valid);
  }

  /** The corrected parser inverts `_format_offset` for every offset a `timezone` can hold. */
  lemma {:induction false} OffsetRoundTripCorrected(offset: int)
    requires -1440 < offset < 1440
    ensures ParseTzinfoCorrected(Some(FormatOffset(offset))) == Some(offset)
  {
    FormatOffsetPieces(offset);
  }

  /** The corrected and as-written parsers differ only on negative zones with non-zero hours and minutes. */
  lemma CorrectedAgreesIff(z: string)
    requires IsColonOffset(z) || IsCompactOffset(z)
    ensures ParseTzinfoCorrected(Some(z)) == ParseTzinfo(Some(z))
        <==> z[0] == '+' || ToNat(z[1..3]) == 0 || ToNat(z[|z| - 2..]) == 0
  {
    NumericOffset(z);
  }

  /** With the corrected parser, `load(dump(d))` is `d` for every aware `d`, and `d` in UTC for a naive one. */
  lemma LoadCorrectedDump(d: DateTime, valid: DateTime -> bool)
    requires Representable(d)
    requires valid(if d.offset.Some? then d else d.(offset := Some(0)))
    ensures LoadCorrected(Dump(d), valid) == Success(if d.offset.Some? then d else d.(offset := Some(0)))
  {
    DumpFields(d);
    if d.offset.Some? {
      OffsetRoundTripCorrected(d.offset.value);
    }
  }
}
