/**
 * The duration and count helpers of src/utils.js (duplicated verbatim in
 * src/TasksComponent.js): parsing a decimal count, parsing an `XhYmZs`
 * duration, and printing a number of seconds as `XhYmZs` or `HH:MM:SS`.
 *
 * JavaScript numbers are modelled as naturals: every value these helpers
 * produce or consume in the program is a whole, non-negative number of
 * seconds or repetitions.
 */
module Durations {
  import opened Wrappers

  predicate IsDigit(c: char) {
    '0' <= c <= '9'
  }

  predicate AllDigits(s: string) {
    forall i :: 0 <= i < |s| ==> IsDigit(s[i])
  }

  /** A match of `[0-9]+`. */
  predicate IsNumeral(s: string) {
    s != [] && AllDigits(s)
  }

  function DigitChar(d: nat): (c: char)
    requires d < 10
    ensures IsDigit(c) && c as int - '0' as int == d
  {
    ('0' as int + d) as char
  }

  /** The value `parseInt(s, 10)` gives for an all-digit string (0 for the empty one, which never reaches it). */
  function DigitsValue(s: string): nat
    requires AllDigits(s)
    decreases |s|
  {
    if s == [] then 0 else DigitsValue(s[..|s| - 1]) * 10 + (s[|s| - 1] as int - '0' as int)
  }

  /** Decimal rendering of a number, as JavaScript's number-to-string conversion produces it. */
  function NatToString(n: nat): (s: string)
    ensures IsNumeral(s)
    ensures |s| > 1 ==> s[0] != '0'
    decreases n
  {
    if n < 10 then [DigitChar(n)] else NatToString(n / 10) + [DigitChar(n % 10)]
  }

  lemma DigitsValueSnoc(s: string, c: char)
    requires AllDigits(s) && IsDigit(c)
    ensures AllDigits(s + [c]) && DigitsValue(s + [c]) == DigitsValue(s) * 10 + (c as int - '0' as int)
  {
    assert (s + [c])[..|s|] == s;
  }

  /** Reading back a rendered number gives the number. */
  lemma {:induction false} NatToStringValue(n: nat)
    ensures DigitsValue(NatToString(n)) == n
    decreases n
  {
    if n >= 10 {
      NatToStringValue(n / 10);
      DigitsValueSnoc(NatToString(n / 10), DigitChar(n % 10));
    }
  }

  /** A leading zero does not change the value of a digit string. */
  lemma {:induction false} LeadingZero(s: string)
    requires AllDigits(s)
    ensures AllDigits("0" + s) && DigitsValue("0" + s) == DigitsValue(s)
    decreases |s|
  {
    if s != [] {
      var init := s[..|s| - 1];
      LeadingZero(init);
      assert "0" + s == ("0" + init) + [s[|s| - 1]];
      DigitsValueSnoc("0" + init, s[|s| - 1]);
    }
  }

  /** `k` zero digits. */
  function Zeros(k: nat): (z: string)
    ensures |z| == k && AllDigits(z)
  {
    if k == 0 then [] else "0" + Zeros(k - 1)
  }

  /**
   * Every digit string is the rendering of its value behind some leading
   * zeros: "007" is 7 printed after two zeros.
   */
  lemma {:induction false} ZerosThenNumeral(s: string)
    requires IsNumeral(s)
    ensures |NatToString(DigitsValue(s))| <= |s|
    ensures s == Zeros(|s| - |NatToString(DigitsValue(s))|) + NatToString(DigitsValue(s))
    decreases |s|
  {
    if |s| > 1 && s[0] == '0' {
      var tail := s[1..];
      assert s == "0" + tail;
      LeadingZero(tail);
      ZerosThenNumeral(tail);
    } else {
      NoLeadingZero(s);
      assert Zeros(0) == [];
    }
  }

  /** A digit string without a leading zero (or "0" itself) is the rendering of its value. */
  lemma {:induction false} NoLeadingZero(s: string)
    requires IsNumeral(s) && (|s| > 1 ==> s[0] != '0')
    ensures NatToString(DigitsValue(s)) == s
    decreases |s|
  {
    var init, c := s[..|s| - 1], s[|s| - 1];
    var d := c as int - '0' as int;
    if init == [] {
      assert DigitChar(d) == c;
    } else {
      assert init[0] == s[0];
      NoLeadingZero(init);
      var v := DigitsValue(init);
      assert v != 0 by { assert NatToString(0) == "0"; }
      var n := v * 10 + d;
      assert n / 10 == v && n % 10 == d;
      assert DigitChar(d) == c;
      assert s == init + [c];
    }
  }

  /**
   * `forceParseInt` (src/utils.js): the value of a string matching
   * `^[0-9]+$`, otherwise null. The string is that value printed in
   * decimal after any number of leading zeros.
   */
  function ForceParseInt(s: string): (r: Option<nat>)
    ensures r.Some? <==> IsNumeral(s)
    ensures r.Some? ==> |NatToString(r.value)| <= |s| && s == Zeros(|s| - |NatToString(r.value)|) + NatToString(r.value)
  {
    if IsNumeral(s) then ZerosThenNumeral(s); Some(DigitsValue(s)) else None
  }

  /** `ForceParseInt` reads back every rendered number, "0" included. */
  lemma ForceParseIntRoundTrip(n: nat)
    ensures ForceParseInt(NatToString(n)) == Some(n)
  {
    NatToStringValue(n);
  }

  /** `repeatCycles`: a repetition count, or the validation error 'Invalid number'. */
  function RepeatCycles(s: string): (r: Result<nat, string>)
    ensures r.Err? <==> !IsNumeral(s)
    ensures r.Err? ==> r.error == "Invalid number"
    ensures r.Ok? ==> |NatToString(r.value)| <= |s| && s == Zeros(|s| - |NatToString(r.value)|) + NatToString(r.value)
  {
    match ForceParseInt(s)
    case None => Err("Invalid number")
    case Some(n) => Ok(n)
  }

  /** A count shown in the editor is read back unchanged, 0 included. */
  lemma RepeatCyclesRoundTrip(n: nat)
    ensures RepeatCycles(NatToString(n)) == Ok(n)
  {
    ForceParseIntRoundTrip(n);
  }

  // ---------------------------------------------------------------------------
  // The regular expression ^([0-9]+h)?([0-9]+m)?([0-9]+s)?$
  // ---------------------------------------------------------------------------

  /** The three optional groups of a match, each held as its digits without the unit letter. */
  datatype HmsParts = HmsParts(hours: Option<string>, minutes: Option<string>, seconds: Option<string>)

  predicate WellFormedParts(p: HmsParts) {
    && (p.hours.Some? ==> IsNumeral(p.hours.value))
    && (p.minutes.Some? ==> IsNumeral(p.minutes.value))
    && (p.seconds.Some? ==> IsNumeral(p.seconds.value))
  }

  /** The text of one optional group: the digits followed by the unit letter, or nothing. */
  function Group(d: Option<string>, unit: char): string {
    if d.Some? then d.value + [unit] else []
  }

  /** The string the regular expression matches with the given groups. */
  function Render(p: HmsParts): string {
    Group(p.hours, 'h') + Group(p.minutes, 'm') + Group(p.seconds, 's')
  }

  /** Length of the run of digits at the start of `s`. */
  function DigitRun(s: string): (n: nat)
    ensures n <= |s| && AllDigits(s[..n]) && (n < |s| ==> !IsDigit(s[n]))
    decreases |s|
  {
    if s == [] || !IsDigit(s[0]) then 0
    else
      var k := DigitRun(s[1..]);
      assert s[..k + 1] == [s[0]] + s[1..][..k];
      k + 1
  }

  /**
   * Matching one optional group `([0-9]+u)?` at the start of `s`: the group
   * can only take the whole leading run of digits, and only when the unit
   * letter follows it; otherwise the group is skipped.
   */
  function TakeGroup(s: string, unit: char): (r: (Option<string>, string))
    ensures r.0.Some? ==> IsNumeral(r.0.value)
    ensures s == Group(r.0, unit) + r.1
  {
    var n := DigitRun(s);
    if 0 < n < |s| && s[n] == unit then
      assert s == s[..n] + [unit] + s[n + 1..];
      (Some(s[..n]), s[n + 1..])
    else (None, s)
  }

  /** `hmsRegex.exec`: the groups of the match, or null when the string does not match. */
  function MatchHms(s: string): (r: Option<HmsParts>)
    ensures r.Some? ==> WellFormedParts(r.value)
  {
    var g1 := TakeGroup(s, 'h');
    var g2 := TakeGroup(g1.1, 'm');
    var g3 := TakeGroup(g2.1, 's');
    if g3.1 == [] then Some(HmsParts(g1.0, g2.0, g3.0)) else None
  }

  /** Every match is a rendering of its groups. */
  lemma MatchHmsSound(s: string)
    ensures MatchHms(s).Some? ==> Render(MatchHms(s).value) == s
  {
    var g1 := TakeGroup(s, 'h');
    var g2 := TakeGroup(g1.1, 'm');
    var g3 := TakeGroup(g2.1, 's');
    if g3.1 == [] {
      Chain3(s, Group(g1.0, 'h'), g1.1, Group(g2.0, 'm'), g2.1, Group(g3.0, 's'));
    }
  }

  lemma Chain3(s: string, a: string, r1: string, b: string, r2: string, c: string)
    requires s == a + r1 && r1 == b + r2 && r2 == c + []
    ensures s == a + b + c
  {
  }

  lemma TakeGroupHit(d: string, unit: char, rest: string)
    requires IsNumeral(d) && !IsDigit(unit)
    ensures TakeGroup(d + [unit] + rest, unit) == (Some(d), rest)
  {
    var s := d + [unit] + rest;
    var n := DigitRun(s);
    assert s[..|d|] == d;
    assert s[|d|] == unit;
    assert n == |d|;
    assert s[n + 1..] == rest;
  }

  /** A group is skipped when what follows does not start with digits and its letter. */
  lemma TakeGroupMiss(p: HmsParts, unit: char)
    requires WellFormedParts(p) && p.hours.None?
    requires unit != 'm' && unit != 's' && !IsDigit(unit)
    ensures TakeGroup(Render(p), unit) == (None, Render(p))
  {
    var s := Render(p);
    if p.minutes.Some? {
      var d := p.minutes.value;
      assert s == d + ['m'] + Group(p.seconds, 's');
      TakeGroupHit(d, 'm', Group(p.seconds, 's'));
    } else if p.seconds.Some? {
      var d := p.seconds.value;
      assert s == d + ['s'] + [];
      TakeGroupHit(d, 's', []);
    }
  }

  /** The regular expression matches a rendering of well-formed groups, and recovers exactly those groups. */
  lemma MatchHmsComplete(p: HmsParts)
    requires WellFormedParts(p)
    ensures MatchHms(Render(p)) == Some(p)
  {
    HoursGroup(p);
    MinutesGroup(p);
    SecondsGroup(p);
  }

  lemma HoursGroup(p: HmsParts)
    requires WellFormedParts(p)
    ensures TakeGroup(Render(p), 'h') == (p.hours, Group(p.minutes, 'm') + Group(p.seconds, 's'))
  {
    var mRest := Group(p.minutes, 'm') + Group(p.seconds, 's');
    if p.hours.Some? {
      assert Render(p) == p.hours.value + ['h'] + mRest;
      TakeGroupHit(p.hours.value, 'h', mRest);
    } else {
      assert Render(p) == mRest;
      TakeGroupMiss(p, 'h');
    }
  }

  lemma MinutesGroup(p: HmsParts)
    requires WellFormedParts(p)
    ensures TakeGroup(Group(p.minutes, 'm') + Group(p.seconds, 's'), 'm') == (p.minutes, Group(p.seconds, 's'))
  {
    var sRest := Group(p.seconds, 's');
    if p.minutes.Some? {
      TakeGroupHit(p.minutes.value, 'm', sRest);
    } else {
      assert Group(p.minutes, 'm') + sRest == sRest;
      SecondsOnly(p.seconds, 'm');
    }
  }

  lemma SecondsGroup(p: HmsParts)
    requires WellFormedParts(p)
    ensures TakeGroup(Group(p.seconds, 's'), 's') == (p.seconds, [])
  {
    if p.seconds.Some? {
      assert Group(p.seconds, 's') == p.seconds.value + ['s'] + [];
      TakeGroupHit(p.seconds.value, 's', []);
    }
  }

  lemma SecondsOnly(x: Option<string>, unit: char)
    requires x.Some? ==> IsNumeral(x.value)
    requires unit != 's' && !IsDigit(unit)
    ensures TakeGroup(Group(x, 's'), unit) == (None, Group(x, 's'))
  {
    if x.Some? {
      assert Group(x, 's') == x.value + ['s'] + [];
      TakeGroupHit(x.value, 's', []);
    }
  }

  /** The strings the regular expression accepts are exactly the renderings of well-formed groups. */
  lemma MatchHmsExactly(s: string)
    ensures MatchHms(s).Some? <==> exists p :: WellFormedParts(p) && Render(p) == s
  {
    if p :| WellFormedParts(p) && Render(p) == s {
      MatchHmsComplete(p);
    }
    MatchHmsSound(s);
  }

  /** The weight of a unit letter in `factor`. */
  function Factor(unit: char): nat {
    if unit == 's' then 1 else if unit == 'm' then 60 else if unit == 'h' then 60 * 60 else 0
  }

  /**
   * The inner loop over `factor` for one matched group: the group's last
   * letter selects its factor and the digits before it are scaled by it;
   * an absent group adds nothing.
   */
  function GroupSeconds(g: string): nat
    requires g != [] ==> AllDigits(g[..|g| - 1])
  {
    if g == [] then 0 else DigitsValue(g[..|g| - 1]) * Factor(g[|g| - 1])
  }

  /** The value of an optional numeral, 0 when absent. */
  function PartValue(d: Option<string>): nat
    requires d.Some? ==> IsNumeral(d.value)
  {
    if d.Some? then DigitsValue(d.value) else 0
  }

  lemma GroupSecondsValue(d: Option<string>, unit: char)
    requires d.Some? ==> IsNumeral(d.value)
    ensures Group(d, unit) != [] ==> AllDigits(Group(d, unit)[..|Group(d, unit)| - 1])
    ensures GroupSeconds(Group(d, unit)) == Factor(unit) * PartValue(d)
    ensures unit == 'h' ==> GroupSeconds(Group(d, unit)) == 3600 * PartValue(d)
    ensures unit == 'm' ==> GroupSeconds(Group(d, unit)) == 60 * PartValue(d)
    ensures unit == 's' ==> GroupSeconds(Group(d, unit)) == PartValue(d)
  {
    if d.Some? {
      assert Group(d, unit)[..|d.value|] == d.value;
    }
  }

  /** `hmsTimeStringToSeconds`: the sum over the matched groups, or null when the string does not match. */
  function HmsTimeStringToSeconds(s: string): (r: Option<nat>)
    ensures r.Some? <==> MatchHms(s).Some?
    ensures r.Some? ==>
      var p := MatchHms(s).value;
      r.value == 3600 * PartValue(p.hours) + 60 * PartValue(p.minutes) + PartValue(p.seconds)
  {
    match MatchHms(s)
    case None => None
    case Some(p) =>
      GroupSecondsValue(p.hours, 'h');
      GroupSecondsValue(p.minutes, 'm');
      GroupSecondsValue(p.seconds, 's');
      Some(GroupSeconds(Group(p.hours, 'h')) + GroupSeconds(Group(p.minutes, 'm')) + GroupSeconds(Group(p.seconds, 's')))
  }

  /** The empty string matches with every group absent and is worth 0 seconds. */
  lemma HmsEmpty()
    ensures HmsTimeStringToSeconds("") == Some(0)
  {
    MatchHmsComplete(HmsParts(None, None, None));
  }

  /**
   * `timeStringToSeconds`: the `XhYmZs` value when it is non-zero, else the
   * plain decimal value, else the validation error 'Invalid time string'.
   * The fallback is taken on a zero `XhYmZs` value too, because the source
   * combines the two parsers with `||`.
   */
  function TimeStringToSeconds(s: string): (r: Result<nat, string>)
    ensures r.Err? ==> r.error == "Invalid time string"
    ensures r.Ok? <==> (HmsTimeStringToSeconds(s).Some? && HmsTimeStringToSeconds(s).value != 0) || IsNumeral(s)
    ensures HmsTimeStringToSeconds(s).Some? && HmsTimeStringToSeconds(s).value != 0 ==> r == Ok(HmsTimeStringToSeconds(s).value)
    ensures r.Ok? && (HmsTimeStringToSeconds(s).None? || HmsTimeStringToSeconds(s).value == 0) ==> r == Ok(DigitsValue(s))
  {
    var hms := HmsTimeStringToSeconds(s);
    if hms.Some? && hms.value != 0 then Ok(hms.value)
    else
      match ForceParseInt(s)
      case None => Err("Invalid time string")
      case Some(n) => Ok(n)
  }

  /** Zero durations: a bare "0" is accepted, but "", "0s" and "0h0m0s" are rejected. */
  lemma ZeroDurations()
    ensures TimeStringToSeconds("0") == Ok(0)
    ensures TimeStringToSeconds("").Err?
    ensures TimeStringToSeconds("0s").Err?
    ensures TimeStringToSeconds("0h0m0s").Err?
  {
    BareZero();
    EmptyRejected();
    ZeroSecondsRejected();
    ZeroHmsRejected();
  }

  lemma BareZero()
    ensures TimeStringToSeconds("0") == Ok(0)
  {
    assert DigitsValue("0") == 0 by { assert "0"[..0] == []; }
  }

  lemma EmptyRejected()
    ensures TimeStringToSeconds("").Err?
  {
    HmsEmpty();
  }

  lemma ZeroSecondsRejected()
    ensures TimeStringToSeconds("0s").Err?
  {
    var zs := HmsParts(None, None, Some("0"));
    RejectedZero(zs);
    assert Render(zs) == "0s";
  }

  lemma ZeroHmsRejected()
    ensures TimeStringToSeconds("0h0m0s").Err?
  {
    var zhms := HmsParts(Some("0"), Some("0"), Some("0"));
    RejectedZero(zhms);
    ZeroHmsRender();
  }

  lemma ZeroHmsRender()
    ensures Render(HmsParts(Some("0"), Some("0"), Some("0"))) == "0h0m0s"
  {
    var s := Render(HmsParts(Some("0"), Some("0"), Some("0")));
    assert |s| == 6;
    assert s[0] == '0' && s[1] == 'h' && s[2] == '0' && s[3] == 'm' && s[4] == '0' && s[5] == 's';
  }

  /** A rendering of all-zero groups that has a unit letter is worth 0 and is not a plain numeral, so it is rejected. */
  lemma RejectedZero(p: HmsParts)
    requires p.hours.Some? ==> p.hours.value == "0"
    requires p.minutes.Some? ==> p.minutes.value == "0"
    requires p.seconds == Some("0")
    ensures TimeStringToSeconds(Render(p)).Err?
  {
    ZeroIsWorthNothing(p);
    var s := Render(p);
    assert s[|s| - 1] == 's';
  }

  /** Groups whose digits are all "0" are matched and worth 0 seconds. */
  lemma ZeroIsWorthNothing(p: HmsParts)
    requires p.hours.Some? ==> p.hours.value == "0"
    requires p.minutes.Some? ==> p.minutes.value == "0"
    requires p.seconds.Some? ==> p.seconds.value == "0"
    ensures HmsTimeStringToSeconds(Render(p)) == Some(0)
  {
    assert DigitsValue("0") == 0 by { assert "0"[..0] == []; }
    MatchHmsComplete(p);
  }

  /** `formatTimeFromSeconds`: whole hours, the minutes within the hour and the seconds within the minute. */
  function FormatTimeFromSeconds(t: nat): (s: string)
    ensures s == Render(HmsParts(Some(NatToString(t / 3600)), Some(NatToString(t / 60 % 60)), Some(NatToString(t % 60))))
  {
    NatToString(t / (60 * 60)) + "h" + NatToString(t / 60 % 60) + "m" + NatToString(t % 60) + "s"
  }

  /**
   * The formatted duration holds all three groups of an `XhYmZs` string:
   * some hours, minutes below 60 and seconds below 60 that together are
   * worth `t`.
   */
  lemma FormatTimeFields(t: nat) returns (h: nat, mi: nat, se: nat)
    ensures mi < 60 && se < 60 && 3600 * h + 60 * mi + se == t
    ensures FormatTimeFromSeconds(t) == Render(HmsParts(Some(NatToString(h)), Some(NatToString(mi)), Some(NatToString(se))))
  {
    h, mi, se := t / 3600, t / 60 % 60, t % 60;
    HoursMinutesSeconds(t);
  }

  /** Formatting then parsing gives back the duration, for every duration including 0. */
  lemma HmsRoundTrip(t: nat)
    ensures HmsTimeStringToSeconds(FormatTimeFromSeconds(t)) == Some(t)
  {
    var p := HmsParts(Some(NatToString(t / 3600)), Some(NatToString(t / 60 % 60)), Some(NatToString(t % 60)));
    MatchHmsComplete(p);
    NatToStringValue(t / 3600);
    NatToStringValue(t / 60 % 60);
    NatToStringValue(t % 60);
    HoursMinutesSeconds(t);
  }

  lemma HoursMinutesSeconds(t: nat)
    ensures 3600 * (t / 3600) + 60 * (t / 60 % 60) + t % 60 == t
  {
    var a := t / 60;
    assert t == 60 * a + t % 60;
    assert a == 60 * (a / 60) + a % 60;
    assert t == 3600 * (a / 60) + 60 * (a % 60) + t % 60;
    assert t / 3600 == a / 60;
  }

  /**
   * The editor shows a timer's duration with `formatTimeFromSeconds` and
   * re-reads it with `timeStringToSeconds` on save: this gives the
   * duration back exactly when it is positive, and rejects a zero duration.
   */
  lemma EditRoundTrip(t: nat)
    ensures t > 0 ==> TimeStringToSeconds(FormatTimeFromSeconds(t)) == Ok(t)
    ensures t == 0 ==> TimeStringToSeconds(FormatTimeFromSeconds(t)).Err?
  {
    HmsRoundTrip(t);
    var s := FormatTimeFromSeconds(t);
    assert 'h' in s;
    assert !IsNumeral(s) by {
      var i :| 0 <= i < |s| && s[i] == 'h';
    }
  }

  /** `zeroPad`: a leading '0' for one-digit numbers. */
  function ZeroPad(n: nat): (s: string)
    ensures AllDigits(s) && |s| >= 2
    ensures n < 100 ==> |s| == 2
    ensures s[0] == '0' <==> n < 10
  {
    NatToStringLength(n);
    if n < 10 then "0" + NatToString(n) else NatToString(n)
  }

  lemma {:induction false} NatToStringLength(n: nat)
    ensures n < 10 <==> |NatToString(n)| == 1
    ensures n < 100 ==> |NatToString(n)| <= 2
    ensures NatToString(n)[0] == '0' <==> n == 0
    decreases n
  {
    if n >= 10 {
      NatToStringLength(n / 10);
    }
  }

  lemma ZeroPadValue(n: nat)
    ensures DigitsValue(ZeroPad(n)) == n
  {
    NatToStringValue(n);
    if n < 10 {
      LeadingZero(NatToString(n));
    }
  }

  /** `formatZeroPadSeconds`: `HH:MM:SS` with every field zero-padded to at least two digits. */
  function FormatZeroPadSeconds(t: nat): string {
    ZeroPad(t / (60 * 60)) + ":" + ZeroPad(t / 60 % 60) + ":" + ZeroPad(t % 60)
  }

  /**
   * The clock reading is three digit fields separated by ':': the hours
   * field has at least two digits, the other two exactly two and are below
   * 60, and together they are worth `t` seconds.
   */
  lemma ClockFields(t: nat) returns (hh: string, mm: string, ss: string)
    ensures FormatZeroPadSeconds(t) == hh + ":" + mm + ":" + ss
    ensures AllDigits(hh) && AllDigits(mm) && AllDigits(ss)
    ensures |hh| >= 2 && |mm| == 2 && |ss| == 2
    ensures DigitsValue(mm) < 60 && DigitsValue(ss) < 60
    ensures 3600 * DigitsValue(hh) + 60 * DigitsValue(mm) + DigitsValue(ss) == t
  {
    hh, mm, ss := ZeroPad(t / 3600), ZeroPad(t / 60 % 60), ZeroPad(t % 60);
    ZeroPadValue(t / 3600);
    ZeroPadValue(t / 60 % 60);
    ZeroPadValue(t % 60);
  }
}
