/** The duration window of `get_duration`
    (ecr_scan_reporter/images_scanner.py:23-68): a compact expression
    `[Nm][Nw][Nd][Nh]` is matched against
    `(?P<months>\dm)?(?P<weeks>\dw)?(?P<days>\dd)?(?P<hours>\dh)?` and turned
    into the cutoff instant `now - relativedelta(...)`. */
module Durations {
  import opened Wrappers

  /** Instants are whole seconds. */
  type Timestamp = int

  const DefaultDuration: string := "7d"
  const SecondsPerHour: int := 3600
  const HoursPerDay: int := 24
  const DaysPerWeek: int := 7

  datatype Duration = Duration(months: nat, weeks: nat, days: nat, hours: nat)

  predicate IsDigit(c: char) { '0' <= c <= '9' }

  function DigitValue(c: char): nat
    requires IsDigit(c)
  {
    c as int - '0' as int
  }

  function DigitChar(v: nat): (c: char)
    requires v <= 9
    ensures IsDigit(c) && DigitValue(c) == v
  {
    ('0' as int + v) as char
  }

  /** What the four named groups captured: the digit of each group that
      took part in the match, None for a group that did not. The captured
      text is a digit and its unit letter; `re.sub(r"[^\d]", "", ...)`
      keeps the digit alone, which is what is kept here. */
  datatype DurationMatch = DurationMatch(
    months: Option<char>, weeks: Option<char>, days: Option<char>, hours: Option<char>,
    length: nat)

  /** One optional group `(\d<unit>)?` tried at `pos`. */
  function Group(s: string, pos: nat, unit: char): (g: Option<char>)
    ensures g.Some? ==> pos + 2 <= |s| && IsDigit(g.value) && s[pos] == g.value && s[pos + 1] == unit
  {
    if pos + 2 <= |s| && IsDigit(s[pos]) && s[pos + 1] == unit then Some(s[pos]) else None
  }

  function Advance(pos: nat, g: Option<char>): nat {
    if g.Some? then pos + 2 else pos
  }

  /** `DURATIONS_RE.match(s)`: every group is optional and nothing follows
      them, so the greedy first attempt always succeeds, possibly with an
      empty match. There is no "no match" result, which is why the
      warning at images_scanner.py:42-46 never fires. */
  function MatchDuration(s: string): (m: DurationMatch)
    ensures m.length <= |s|
    ensures m.length == 0 <==> m.months.None? && m.weeks.None? && m.days.None? && m.hours.None?
  {
    var months := Group(s, 0, 'm');
    var p1 := Advance(0, months);
    var weeks := Group(s, p1, 'w');
    var p2 := Advance(p1, weeks);
    var days := Group(s, p2, 'd');
    var p3 := Advance(p2, days);
    var hours := Group(s, p3, 'h');
    DurationMatch(months, weeks, days, hours, Advance(p3, hours))
  }

  /** A group that matched contributes its digit, an absent group 0. */
  function Component(g: Option<char>): (v: nat)
    ensures v <= 9
    ensures g.None? ==> v == 0
  {
    if g.Some? && IsDigit(g.value) then DigitValue(g.value) else 0
  }

  function ParseDuration(s: string): (d: Duration)
    ensures d.months <= 9 && d.weeks <= 9 && d.days <= 9 && d.hours <= 9
  {
    var m := MatchDuration(s);
    Duration(Component(m.months), Component(m.weeks), Component(m.days), Component(m.hours))
  }

  /** The expression actually used: a missing or empty argument becomes
      "7d", and a value of the environment variable (when set, even to the
      empty string) replaces it. */
  function EffectiveExpression(durationExp: Option<string>, env: Option<string>): (e: string)
    ensures env.Some? ==> e == env.value
    ensures env.None? && (durationExp.None? || durationExp.value == "") ==> e == DefaultDuration
    ensures env.None? && durationExp.Some? && durationExp.value != "" ==> e == durationExp.value
  {
    var exp := if durationExp.None? || durationExp.value == "" then DefaultDuration else durationExp.value;
    if env.Some? then env.value else exp
  }

  /** `now - relativedelta(months=..., weeks=..., days=..., hours=...)`:
      the calendar month step first (`monthsBack`, left abstract; zero
      months leave the instant as it is), then weeks, days and hours as a
      fixed number of seconds. */
  function Cutoff(d: Duration, now: Timestamp, monthsBack: (Timestamp, nat) -> Timestamp): (c: Timestamp)
    ensures c <= (if d.months == 0 then now else monthsBack(now, d.months))
    ensures c == (if d.months == 0 then now else monthsBack(now, d.months)) <==>
              d.weeks == 0 && d.days == 0 && d.hours == 0
    ensures d == Duration(0, 0, 0, 0) ==> c == now
  {
    var base := if d.months == 0 then now else monthsBack(now, d.months);
    base - ((d.weeks * DaysPerWeek + d.days) * HoursPerDay + d.hours) * SecondsPerHour
  }

  /** `get_duration`: the cutoff of the expression in force. Without an
      environment value, a missing or empty argument is seven days before
      `now`; a set environment value wins over the argument, even when it
      is empty. When the calendar step never moves forward, the cutoff is
      never later than `now`. */
  function GetDuration(durationExp: Option<string>, env: Option<string>, now: Timestamp,
                       monthsBack: (Timestamp, nat) -> Timestamp): (cutoff: Timestamp)
    ensures env.None? && (durationExp.None? || durationExp.value == "") ==>
              cutoff == now - 7 * HoursPerDay * SecondsPerHour
    ensures env.None? && durationExp.Some? && durationExp.value != "" ==>
              cutoff == Cutoff(ParseDuration(durationExp.value), now, monthsBack)
    ensures env.Some? ==> cutoff == Cutoff(ParseDuration(env.value), now, monthsBack)
    ensures (forall m :: monthsBack(now, m) <= now) ==> cutoff <= now
  {
    Cutoff(ParseDuration(EffectiveExpression(durationExp, env)), now, monthsBack)
  }

  /** The writing of one part: a digit and its unit, or nothing for 0. */
  function Part(v: nat, unit: char): (p: string)
    requires v <= 9
    ensures |p| == 0 || |p| == 2
  {
    if v > 0 then [DigitChar(v), unit] else []
  }

  /** Trying the group for `unit` just after `prefix`, where `Part(v, unit)`
      is written and followed by text whose second character is one of
      `later` (the units still to come), captures exactly that part. */
  lemma GroupOnPart(prefix: string, v: nat, unit: char, rest: string, later: set<char>)
    requires v <= 9
    requires unit !in later
    requires |rest| == 0 || (|rest| >= 2 && rest[1] in later)
    ensures Group(prefix + Part(v, unit) + rest, |prefix|, unit) == (if v > 0 then Some(DigitChar(v)) else None)
  {
    var s := prefix + Part(v, unit) + rest;
    var pos := |prefix|;
    if v > 0 {
      assert s[pos] == DigitChar(v) && s[pos + 1] == unit;
    } else if |rest| >= 2 {
      assert s[pos + 1] == rest[1];
    }
  }

  /** The writing `[Nm][Nw][Nd][Nh]` of a duration, omitting zero parts. */
  function Format(d: Duration): string
    requires d.months <= 9 && d.weeks <= 9 && d.days <= 9 && d.hours <= 9
  {
    Part(d.months, 'm') + Part(d.weeks, 'w') + Part(d.days, 'd') + Part(d.hours, 'h')
  }

  /** Every duration with one-digit parts is read back from its writing. */
  lemma ParseFormat(d: Duration)
    requires d.months <= 9 && d.weeks <= 9 && d.days <= 9 && d.hours <= 9
    ensures ParseDuration(Format(d)) == d
  {
    var a, b, c, e := Part(d.months, 'm'), Part(d.weeks, 'w'), Part(d.days, 'd'), Part(d.hours, 'h');
    var s := Format(d);
    var g1 := Group(s, 0, 'm');
    assert Component(g1) == d.months by {
      var rest := b + c + e;
      assert s == [] + a + rest;
      assert |rest| == 0 || (|rest| >= 2 && rest[1] in {'w', 'd', 'h'});
      GroupOnPart([], d.months, 'm', rest, {'w', 'd', 'h'});
    }
    var p1 := Advance(0, g1);
    assert p1 == |a|;
    var g2 := Group(s, p1, 'w');
    assert Component(g2) == d.weeks by {
      var rest := c + e;
      assert s == a + b + rest;
      assert |rest| == 0 || (|rest| >= 2 && rest[1] in {'d', 'h'});
      GroupOnPart(a, d.weeks, 'w', rest, {'d', 'h'});
    }
    var p2 := Advance(p1, g2);
    assert p2 == |a + b|;
    var g3 := Group(s, p2, 'd');
    assert Component(g3) == d.days by {
      assert s == (a + b) + c + e;
      GroupOnPart(a + b, d.days, 'd', e, {'h'});
    }
    var p3 := Advance(p2, g3);
    assert p3 == |a + b + c|;
    var g4 := Group(s, p3, 'h');
    assert Component(g4) == d.hours by {
      assert s == (a + b + c) + e + [];
      GroupOnPart(a + b + c, d.hours, 'h', [], {});
    }
    var m := MatchDuration(s);
    assert m.months == g1 && m.weeks == g2 && m.days == g3 && m.hours == g4;
  }

  /** A missing or empty expression, with no environment override, is "7d":
      seven days and nothing else. */
  lemma DefaultIsSevenDays(durationExp: Option<string>)
    requires durationExp.None? || durationExp.value == ""
    ensures ParseDuration(EffectiveExpression(durationExp, None)) == Duration(0, 0, 7, 0)
  {
    var m := MatchDuration(DefaultDuration);
    assert m.days == Some('7');
  }

  /** An expression whose beginning is not a digit followed by one of the
      unit letters matches the empty prefix: every component is 0 and the
      cutoff is `now` itself, with no fall-back to seven days. */
  lemma UnmatchedGivesNow(s: string, now: Timestamp, monthsBack: (Timestamp, nat) -> Timestamp)
    requires s != "" && !(|s| >= 2 && IsDigit(s[0]) && s[1] in {'m', 'w', 'd', 'h'})
    ensures ParseDuration(s) == Duration(0, 0, 0, 0)
    ensures GetDuration(Some(s), None, now, monthsBack) == now
  {
  }

  /** The warning of `get_duration` announces a fall-back to seven days for
      an expression the pattern does not take, but "bogus" and "10d" both
      give the cutoff `now`. */
  lemma BogusAndTwoDigitsGiveNow(now: Timestamp, monthsBack: (Timestamp, nat) -> Timestamp)
    ensures GetDuration(Some("bogus"), None, now, monthsBack) == now
    ensures GetDuration(Some("10d"), None, now, monthsBack) == now
  {
    UnmatchedGivesNow("bogus", now, monthsBack);
    UnmatchedGivesNow("10d", now, monthsBack);
  }

  /** Moving any of weeks, days or hours up moves the cutoff further into the
      past, strictly when one of them grows. */
  lemma CutoffMonotone(d1: Duration, d2: Duration, now: Timestamp,
                       monthsBack: (Timestamp, nat) -> Timestamp)
    requires d1.months == d2.months
    requires d1.weeks <= d2.weeks && d1.days <= d2.days && d1.hours <= d2.hours
    ensures Cutoff(d2, now, monthsBack) <= Cutoff(d1, now, monthsBack)
    ensures d1 != d2 ==> Cutoff(d2, now, monthsBack) < Cutoff(d1, now, monthsBack)
  {
  }

  /** The cutoff is antitone in the duration: a duration at least as long
      in every component gives a cutoff no later, provided the calendar
      step goes back in time and goes further back for more months. */
  lemma CutoffAntitone(d1: Duration, d2: Duration, now: Timestamp,
                       monthsBack: (Timestamp, nat) -> Timestamp)
    requires forall t, m1, m2 :: 1 <= m1 <= m2 ==> monthsBack(t, m2) <= monthsBack(t, m1) <= t
    requires d1.months <= d2.months && d1.weeks <= d2.weeks && d1.days <= d2.days && d1.hours <= d2.hours
    ensures Cutoff(d2, now, monthsBack) <= Cutoff(d1, now, monthsBack)
  {
    if d2.months > 0 {
      var m1 := if d1.months == 0 then d2.months else d1.months;
      assert monthsBack(now, d2.months) <= monthsBack(now, m1) <= now;
    }
  }
}
