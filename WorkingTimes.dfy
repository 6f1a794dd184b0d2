/**
 * A restaurant's working time: seven day flags and two clock times kept as
 * text, the two field validators, the parse and format done when the
 * working time is shown, and the "open now" rule.
 *
 * The validators are written as hand-coded recognisers that follow the
 * structure of their regular expressions; each is proved equal to the
 * language the expression denotes, given as a generator of every string it
 * matches.
 */
module WorkingTimes {
  import opened Wrappers

  /** The weekday names, Sunday first; a weekday number indexes this list. */
  const DAYS: seq<string> := ["Sun", "Mon", "Tue", "Wed", "Thu", "Fri", "Sat"]

  predicate IsFlag(c: char) { c == '0' || c == '1' }

  predicate IsDigit(c: char) { '0' <= c <= '9' }

  predicate AllFlags(s: string) { forall i :: 0 <= i < |s| ==> IsFlag(s[i]) }

  function Spaces(n: nat): (r: string)
    ensures |r| == n && forall i :: 0 <= i < n ==> r[i] == ' '
  {
    seq(n, _ => ' ')
  }

  /** What Python's `$` allows after the pattern: nothing, or one final newline. */
  function Newline(present: bool): string { if present then "\n" else "" }

  // ---------------------------------------------------------------------
  // WorkingDaysValidator: ^([0-1]{1}(\ *)){7}$
  // ---------------------------------------------------------------------

  /** Length of the leading run of spaces, which is what a greedy `\ *` consumes. */
  function SpaceRun(s: string): (n: nat)
    ensures n <= |s|
    ensures n == |s| || s[n] != ' '
  {
    if s != [] && s[0] == ' ' then 1 + SpaceRun(s[1..]) else 0
  }

  lemma {:induction false} SpaceRunIsSpaces(s: string)
    ensures s[..SpaceRun(s)] == Spaces(SpaceRun(s))
    decreases |s|
  {
    if s != [] && s[0] == ' ' {
      SpaceRunIsSpaces(s[1..]);
      assert s[..SpaceRun(s)] == [' '] + s[1..][..SpaceRun(s[1..])];
    }
  }

  /** Where a day group starting at s[0] ends: after the flag and its spaces. */
  function GroupEnd(s: string): (j: nat)
    requires s != []
    ensures 1 <= j <= |s|
  {
    1 + SpaceRun(s[1..])
  }

  /** How many repetitions of the group `[0-1]{1}(\ *)` make up s exactly, if any. */
  function DayGroups(s: string): Option<nat>
    decreases |s|
  {
    if s == [] then Some(0)
    else if !IsFlag(s[0]) then None
    else match DayGroups(s[GroupEnd(s)..])
      case None => None
      case Some(k) => Some(k + 1)
  }

  /** The working-days validator: the regular expression is searched from
      the start (`^`) and `$` matches at the end or before a final newline. */
  predicate WorkingDaysValid(s: string)
  {
    DayGroups(s) == Some(7) || (s != [] && s[|s| - 1] == '\n' && DayGroups(s[..|s| - 1]) == Some(7))
  }

  /** The strings the group sequence denotes: each flag followed by some spaces. */
  function RenderDays(flags: string, pads: seq<nat>): string
    requires |flags| == |pads|
    decreases |flags|
  {
    if flags == [] then [] else [flags[0]] + Spaces(pads[0]) + RenderDays(flags[1..], pads[1..])
  }

  lemma {:induction false} SpaceRunOfPadding(n: nat, rest: string)
    requires rest == [] || rest[0] != ' '
    ensures SpaceRun(Spaces(n) + rest) == n
    decreases n
  {
    if n == 0 {
      assert Spaces(0) + rest == rest;
    } else {
      assert (Spaces(n) + rest)[1..] == Spaces(n - 1) + rest;
      SpaceRunOfPadding(n - 1, rest);
    }
  }

  /** Every string the expression denotes is accepted by the recogniser. */
  lemma {:induction false} RenderedDaysMatch(flags: string, pads: seq<nat>)
    requires |flags| == |pads| && AllFlags(flags)
    ensures DayGroups(RenderDays(flags, pads)) == Some(|flags|)
    decreases |flags|
  {
    if flags != [] {
      var rest := RenderDays(flags[1..], pads[1..]);
      var s := RenderDays(flags, pads);
      assert s == [flags[0]] + (Spaces(pads[0]) + rest);
      assert s[1..] == Spaces(pads[0]) + rest;
      if flags[1..] != [] {
        assert rest[0] == flags[1];
      }
      SpaceRunOfPadding(pads[0], rest);
      assert GroupEnd(s) == 1 + pads[0];
      assert s[1 + pads[0]..] == rest;
      RenderedDaysMatch(flags[1..], pads[1..]);
    }
  }

  /** The flags read back from an accepted group sequence. */
  function GroupFlags(s: string): string
    requires DayGroups(s).Some?
    decreases |s|
  {
    if s == [] then [] else [s[0]] + GroupFlags(s[GroupEnd(s)..])
  }

  /** The space counts read back from an accepted group sequence. */
  function GroupPads(s: string): seq<nat>
    requires DayGroups(s).Some?
    decreases |s|
  {
    if s == [] then [] else [GroupEnd(s) - 1] + GroupPads(s[GroupEnd(s)..])
  }

  /** A day group is its flag, then its spaces, then what follows. */
  lemma GroupSplit(s: string)
    requires s != []
    ensures s == [s[0]] + Spaces(GroupEnd(s) - 1) + s[GroupEnd(s)..]
  {
    SpaceRunIsSpaces(s[1..]);
    assert s[1..][..GroupEnd(s) - 1] == s[1..GroupEnd(s)];
    assert s == [s[0]] + s[1..GroupEnd(s)] + s[GroupEnd(s)..];
  }

  /** Every string the recogniser accepts is one the expression denotes. */
  lemma {:induction false} AcceptedDaysRendered(s: string)
    requires DayGroups(s).Some?
    ensures |GroupFlags(s)| == DayGroups(s).value && |GroupPads(s)| == DayGroups(s).value
    ensures AllFlags(GroupFlags(s))
    ensures s == RenderDays(GroupFlags(s), GroupPads(s))
    decreases |s|
  {
    if s != [] {
      var t := s[GroupEnd(s)..];
      AcceptedDaysRendered(t);
      GroupSplit(s);
      RenderDaysCons(s[0], GroupFlags(t), GroupEnd(s) - 1, GroupPads(t));
    }
  }

  lemma AcceptedDaysShape(s: string)
    requires WorkingDaysValid(s)
    ensures exists flags: string, pads: seq<nat>, nl: bool ::
      |flags| == 7 && |pads| == 7 && AllFlags(flags) && s == RenderDays(flags, pads) + Newline(nl)
  {
    if DayGroups(s) == Some(7) {
      AcceptedDaysRendered(s);
      assert s == RenderDays(GroupFlags(s), GroupPads(s)) + Newline(false);
    } else {
      var t := s[..|s| - 1];
      AcceptedDaysRendered(t);
      assert s == t + "\n";
      assert s == RenderDays(GroupFlags(t), GroupPads(t)) + Newline(true);
    }
  }

  lemma RenderedDaysValid(flags: string, pads: seq<nat>, nl: bool)
    requires |flags| == 7 && |pads| == 7 && AllFlags(flags)
    ensures WorkingDaysValid(RenderDays(flags, pads) + Newline(nl))
  {
    var s := RenderDays(flags, pads) + Newline(nl);
    RenderedDaysMatch(flags, pads);
    if nl {
      assert s[..|s| - 1] == RenderDays(flags, pads);
    } else {
      assert s == RenderDays(flags, pads);
    }
  }

  /** The working-days validator accepts exactly seven flags, each followed
      by any number of spaces, optionally followed by one newline. */
  lemma WorkingDaysValidIff(s: string)
    ensures WorkingDaysValid(s) <==>
      exists flags: string, pads: seq<nat>, nl: bool ::
        |flags| == 7 && |pads| == 7 && AllFlags(flags) && s == RenderDays(flags, pads) + Newline(nl)
  {
    if WorkingDaysValid(s) {
      AcceptedDaysShape(s);
    }
    if exists flags: string, pads: seq<nat>, nl: bool ::
         |flags| == 7 && |pads| == 7 && AllFlags(flags) && s == RenderDays(flags, pads) + Newline(nl)
    {
      var flags: string, pads: seq<nat>, nl: bool :|
        |flags| == 7 && |pads| == 7 && AllFlags(flags) && s == RenderDays(flags, pads) + Newline(nl);
      RenderedDaysValid(flags, pads, nl);
    }
  }

  lemma RenderDaysCons(c: char, flags: string, k: nat, pads: seq<nat>)
    requires |flags| == |pads|
    ensures RenderDays([c] + flags, [k] + pads) == [c] + Spaces(k) + RenderDays(flags, pads)
  {
    assert ([c] + flags)[1..] == flags && ([k] + pads)[1..] == pads;
  }

  lemma SpacedFlagsTail()
    ensures RenderDays("000", [1, 1, 0]) == "0 0 0"
  {
    assert Spaces(1) == " " && Spaces(0) == "";
    RenderDaysCons('0', "", 0, []);
    RenderDaysCons('0', "0", 1, [0]);
    RenderDaysCons('0', "00", 1, [1, 0]);
  }

  lemma SpacedFlags()
    ensures RenderDays("0000000", [1, 1, 1, 1, 1, 1, 0]) == "0 0 0 0 0 0 0"
  {
    assert Spaces(1) == " ";
    SpacedFlagsTail();
    RenderDaysCons('0', "000", 1, [1, 1, 0]);
    RenderDaysCons('0', "0000", 1, [1, 1, 1, 0]);
    RenderDaysCons('0', "00000", 1, [1, 1, 1, 1, 0]);
    RenderDaysCons('0', "000000", 1, [1, 1, 1, 1, 1, 0]);
  }

  lemma RenderedDaysValidPlain(flags: string, pads: seq<nat>, s: string)
    requires |flags| == 7 && |pads| == 7 && AllFlags(flags) && RenderDays(flags, pads) == s
    ensures WorkingDaysValid(s)
  {
    RenderedDaysValid(flags, pads, false);
    assert s + Newline(false) == s;
  }

  /** Flags with no spaces after them render as themselves. */
  lemma {:induction false} Unpadded(flags: string, pads: seq<nat>)
    requires |flags| == |pads| && forall i :: 0 <= i < |pads| ==> pads[i] == 0
    ensures RenderDays(flags, pads) == flags
    decreases |flags|
  {
    if flags != [] {
      Unpadded(flags[1..], pads[1..]);
      assert Spaces(0) == [];
      assert flags == [flags[0]] + flags[1..];
    }
  }

  lemma PlainFlags()
    ensures RenderDays("0000000", [0, 0, 0, 0, 0, 0, 0]) == "0000000"
    ensures RenderDays("0000001", [0, 0, 0, 0, 0, 0, 0]) == "0000001"
  {
    Unpadded("0000000", [0, 0, 0, 0, 0, 0, 0]);
    Unpadded("0000001", [0, 0, 0, 0, 0, 0, 0]);
  }

  /** The day strings the unit tests accept: flags without spaces. */
  lemma PlainDaysAccepted()
    ensures WorkingDaysValid("0000000")
    ensures WorkingDaysValid("0000001")
  {
    PlainFlags();
    RenderedDaysValidPlain("0000000", [0, 0, 0, 0, 0, 0, 0], "0000000");
    RenderedDaysValidPlain("0000001", [0, 0, 0, 0, 0, 0, 0], "0000001");
  }

  /** The day string the unit tests accept with a space after each flag but the last. */
  lemma SpacedDaysAccepted()
    ensures WorkingDaysValid("0 0 0 0 0 0 0")
  {
    SpacedFlags();
    RenderedDaysValidPlain("0000000", [1, 1, 1, 1, 1, 1, 0], "0 0 0 0 0 0 0");
  }

  /** The day strings the unit tests reject: eight flags, six flags, nothing. */
  lemma WorkingDaysRejected()
    ensures !WorkingDaysValid("00000000")
    ensures !WorkingDaysValid("000000")
    ensures !WorkingDaysValid("")
  {
    FlagCountOfValid("00000000");
    FlagCountOfValid("000000");
    FlagCountOfValid("");
  }

  // ---------------------------------------------------------------------
  // re.findall(r'[0-1]{1}', working_days)
  // ---------------------------------------------------------------------

  /** Every `0` or `1` of s, in order. */
  function Flags(s: string): (r: string)
    ensures AllFlags(r) && |r| <= |s|
  {
    if s == [] then [] else (if IsFlag(s[0]) then [s[0]] else []) + Flags(s[1..])
  }

  lemma {:induction false} FlagsAppend(a: string, b: string)
    ensures Flags(a + b) == Flags(a) + Flags(b)
    decreases |a|
  {
    if a == [] {
      assert a + b == b;
    } else {
      var h := if IsFlag(a[0]) then [a[0]] else [];
      assert (a + b)[0] == a[0];
      assert (a + b)[1..] == a[1..] + b;
      assert Flags(a + b) == h + Flags(a[1..] + b);
      FlagsAppend(a[1..], b);
      assert Flags(a) == h + Flags(a[1..]);
    }
  }

  lemma {:induction false} FlagsOfSpaces(n: nat)
    ensures Flags(Spaces(n)) == []
    decreases n
  {
    if n > 0 {
      assert Spaces(n)[1..] == Spaces(n - 1);
      FlagsOfSpaces(n - 1);
    }
  }

  lemma FlagsOfGroup(c: char, n: nat)
    requires IsFlag(c)
    ensures Flags([c] + Spaces(n)) == [c]
  {
    FlagsAppend([c], Spaces(n));
    FlagsOfSpaces(n);
    assert [c][1..] == [];
  }

  lemma {:induction false} FlagsOfDays(flags: string, pads: seq<nat>)
    requires |flags| == |pads| && AllFlags(flags)
    ensures Flags(RenderDays(flags, pads)) == flags
    decreases |flags|
  {
    if flags != [] {
      var g := [flags[0]] + Spaces(pads[0]);
      var rest := RenderDays(flags[1..], pads[1..]);
      assert RenderDays(flags, pads) == g + rest;
      FlagsAppend(g, rest);
      FlagsOfGroup(flags[0], pads[0]);
      FlagsOfDays(flags[1..], pads[1..]);
      assert flags == [flags[0]] + flags[1..];
    }
  }

  /** Reading the flags back from a rendered day string gives the flags it was made from. */
  lemma FlagsOfRendered(flags: string, pads: seq<nat>, nl: bool)
    requires |flags| == |pads| && AllFlags(flags)
    ensures Flags(RenderDays(flags, pads) + Newline(nl)) == flags
  {
    FlagsAppend(RenderDays(flags, pads), Newline(nl));
    assert Flags(Newline(nl)) == [];
    FlagsOfDays(flags, pads);
  }

  /** An accepted day string holds exactly seven flags. */
  lemma FlagCountOfValid(s: string)
    ensures WorkingDaysValid(s) ==> |Flags(s)| == 7
  {
    WorkingDaysValidIff(s);
    if WorkingDaysValid(s) {
      var flags: string, pads: seq<nat>, nl: bool :|
        |flags| == 7 && |pads| == 7 && AllFlags(flags) && s == RenderDays(flags, pads) + Newline(nl);
      FlagsOfRendered(flags, pads, nl);
    }
  }

  // ---------------------------------------------------------------------
  // WorkingHoursValidator: ^(([0-1][0-9]|2[0-3]):([0-5][0-9])-?){2}$
  // ---------------------------------------------------------------------

  predicate IsHourText(a: char, b: char)
  {
    ((a == '0' || a == '1') && IsDigit(b)) || (a == '2' && '0' <= b <= '3')
  }

  predicate IsMinuteText(a: char, b: char) { '0' <= a <= '5' && IsDigit(b) }

  /** s begins with `([0-1][0-9]|2[0-3]):([0-5][0-9])`. */
  predicate StartsWithClock(s: string)
  {
    |s| >= 5 && IsHourText(s[0], s[1]) && s[2] == ':' && IsMinuteText(s[3], s[4])
  }

  /** u is exactly one group `HH:MM-?`. */
  predicate LastHoursGroup(u: string)
  {
    StartsWithClock(u) && (|u| == 5 || (|u| == 6 && u[5] == '-'))
  }

  /** s is exactly two repetitions of the group `HH:MM-?`. */
  predicate HoursGroups(s: string)
  {
    StartsWithClock(s) && (LastHoursGroup(s[5..]) || (|s| > 5 && s[5] == '-' && LastHoursGroup(s[6..])))
  }

  /** The working-hours validator, with the same anchoring as the day validator. */
  predicate WorkingHoursValid(s: string)
  {
    HoursGroups(s) || (s != [] && s[|s| - 1] == '\n' && HoursGroups(s[..|s| - 1]))
  }

  /** A time of day as two numbers. */
  datatype Clock = Clock(hour: nat, minute: nat)

  predicate ClockInDay(c: Clock) { c.hour < 24 && c.minute < 60 }

  /** Python's tuple order on (hour, minute): lexicographic. */
  predicate Before(a: Clock, b: Clock)
  {
    a.hour < b.hour || (a.hour == b.hour && a.minute < b.minute)
  }

  function DigitChar(d: nat): char
    requires d < 10
  {
    ('0' as int + d) as char
  }

  function DigitValue(c: char): nat
  {
    if IsDigit(c) then c as int - '0' as int else 0
  }

  /** str(n) for a non-negative n. */
  function Decimal(n: nat): string
    decreases n
  {
    if n < 10 then [DigitChar(n)] else Decimal(n / 10) + [DigitChar(n % 10)]
  }

  /** '%2d' % n: the decimal digits of n, right-aligned in a field of width 2. */
  function Width2(n: nat): string
  {
    var d := Decimal(n);
    Spaces(if |d| < 2 then 2 - |d| else 0) + d
  }

  /** s.replace(' ', '0'). */
  function ZeroFill(s: string): string
  {
    seq(|s|, i requires 0 <= i < |s| => if s[i] == ' ' then '0' else s[i])
  }

  /** The zero-padded two-column number shown for an hour or a minute. */
  function Pad2(n: nat): string { ZeroFill(Width2(n)) }

  /** ':'.join of the two padded numbers. */
  function FormatClock(c: Clock): string { Pad2(c.hour) + ":" + Pad2(c.minute) }

  function Hyphen(present: bool): string { if present then "-" else "" }

  /** The strings the group sequence denotes: two times, each optionally followed by a hyphen. */
  function RenderHours(start: Clock, sep: bool, end: Clock, trailing: bool): string
  {
    FormatClock(start) + Hyphen(sep) + FormatClock(end) + Hyphen(trailing)
  }

  /** int() of a run of ASCII digits. */
  function Value(s: string): nat
    decreases |s|
  {
    if s == [] then 0 else 10 * Value(s[..|s| - 1]) + DigitValue(s[|s| - 1])
  }

  lemma ValueOfTwo(a: char, b: char)
    ensures Value([a, b]) == 10 * DigitValue(a) + DigitValue(b)
  {
    assert [a, b][..1] == [a];
    assert [a][..0] == [];
    assert Value([a]) == DigitValue(a);
  }

  lemma {:induction false} DecimalDigits(n: nat)
    ensures |Decimal(n)| >= 1
    ensures forall k :: 0 <= k < |Decimal(n)| ==> IsDigit(Decimal(n)[k])
    ensures n >= 10 ==> |Decimal(n)| >= 2
    decreases n
  {
    if n >= 10 {
      DecimalDigits(n / 10);
    }
  }

  /** A number below 100 is shown as exactly its two decimal digits. */
  lemma Pad2Digits(n: nat)
    requires n < 100
    ensures Pad2(n) == [DigitChar(n / 10), DigitChar(n % 10)]
  {
    if n < 10 {
      assert Decimal(n) == [DigitChar(n)];
      assert Width2(n) == [' ', DigitChar(n)];
    } else {
      assert Decimal(n / 10) == [DigitChar(n / 10)];
      assert Decimal(n) == [DigitChar(n / 10), DigitChar(n % 10)];
      assert Width2(n) == Decimal(n);
    }
  }

  lemma {:induction false} ValueOfDecimal(n: nat)
    ensures Value(Decimal(n)) == n
    decreases n
  {
    if n < 10 {
      assert Decimal(n)[..0] == [];
    } else {
      var d := Decimal(n / 10);
      assert (d + [DigitChar(n % 10)])[..|d|] == d;
      ValueOfDecimal(n / 10);
    }
  }

  /** Parsing a shown number gives the number back (format, then int()). */
  lemma Pad2RoundTrip(n: nat)
    ensures Value(Pad2(n)) == n
  {
    if n < 100 {
      Pad2Digits(n);
      ValueOfTwo(DigitChar(n / 10), DigitChar(n % 10));
    } else {
      DecimalDigits(n);
      assert Width2(n) == Decimal(n);
      assert ZeroFill(Decimal(n)) == Decimal(n);
      ValueOfDecimal(n);
    }
  }

  /** The time that a validated `HH:MM` at position i denotes. */
  function ClockAt(s: string, i: nat): Clock
    requires i + 5 <= |s|
  {
    Clock(Value(s[i..i + 2]), Value(s[i + 3..i + 5]))
  }

  /** A validated `HH:MM` is a time of day, shown exactly as written. */
  lemma ClockText(s: string)
    requires StartsWithClock(s)
    ensures ClockInDay(ClockAt(s, 0))
    ensures FormatClock(ClockAt(s, 0)) == s[..5]
  {
    assert s[0..2] == [s[0], s[1]];
    assert s[3..5] == [s[3], s[4]];
    ValueOfTwo(s[0], s[1]);
    ValueOfTwo(s[3], s[4]);
    var c := ClockAt(s, 0);
    Pad2Digits(c.hour);
    Pad2Digits(c.minute);
    assert Pad2(c.hour) == [s[0], s[1]];
    assert Pad2(c.minute) == [s[3], s[4]];
  }

  /** A time of day is shown as a valid `HH:MM` that denotes it. */
  lemma FormattedClock(c: Clock)
    requires ClockInDay(c)
    ensures |FormatClock(c)| == 5
    ensures StartsWithClock(FormatClock(c))
    ensures ClockAt(FormatClock(c), 0) == c
  {
    Pad2Digits(c.hour);
    Pad2Digits(c.minute);
    var s := FormatClock(c);
    assert s[0..2] == Pad2(c.hour) && s[3..5] == Pad2(c.minute);
    Pad2RoundTrip(c.hour);
    Pad2RoundTrip(c.minute);
  }

  lemma ClockPrefix(a: string, b: string)
    requires StartsWithClock(a)
    ensures StartsWithClock(a + b) && ClockAt(a + b, 0) == ClockAt(a, 0) && (a + b)[..5] == a[..5]
  {
    assert (a + b)[0..2] == a[0..2] && (a + b)[3..5] == a[3..5];
  }

  lemma LastGroupMatch(end: Clock, trailing: bool)
    requires ClockInDay(end)
    ensures LastHoursGroup(FormatClock(end) + Hyphen(trailing))
  {
    FormattedClock(end);
    ClockPrefix(FormatClock(end), Hyphen(trailing));
  }

  lemma GroupsJoin(a: string, sep: bool, v: string, w: string)
    requires |a| == 5 && StartsWithClock(a) && LastHoursGroup(v + w)
    ensures HoursGroups(a + Hyphen(sep) + v + w)
  {
    var u := v + w;
    var t := a + Hyphen(sep) + v + w;
    assert t == a + (Hyphen(sep) + u);
    ClockPrefix(a, Hyphen(sep) + u);
    if sep {
      assert t[5] == '-';
      assert t[6..] == u;
    } else {
      assert t[5..] == u;
    }
  }

  lemma HoursGroupsMatch(start: Clock, sep: bool, end: Clock, trailing: bool)
    requires ClockInDay(start) && ClockInDay(end)
    ensures HoursGroups(RenderHours(start, sep, end, trailing))
  {
    LastGroupMatch(end, trailing);
    FormattedClock(start);
    GroupsJoin(FormatClock(start), sep, FormatClock(end), Hyphen(trailing));
  }

  /** Every string the hours expression denotes is accepted by the recogniser. */
  lemma RenderedHoursMatch(start: Clock, sep: bool, end: Clock, trailing: bool, nl: bool)
    requires ClockInDay(start) && ClockInDay(end)
    ensures WorkingHoursValid(RenderHours(start, sep, end, trailing) + Newline(nl))
  {
    var t := RenderHours(start, sep, end, trailing);
    HoursGroupsMatch(start, sep, end, trailing);
    var s := t + Newline(nl);
    if nl {
      assert s[..|s| - 1] == t;
    } else {
      assert s == t;
    }
  }

  lemma LastGroupRendered(u: string)
    requires LastHoursGroup(u)
    ensures ClockInDay(ClockAt(u, 0))
    ensures u == FormatClock(ClockAt(u, 0)) + Hyphen(|u| == 6)
  {
    ClockText(u);
    assert u == u[..5] + u[5..];
  }

  lemma HoursGroupsRendered(t: string)
    requires HoursGroups(t)
    ensures var u := if LastHoursGroup(t[5..]) then t[5..] else t[6..];
      && ClockInDay(ClockAt(t, 0)) && ClockInDay(ClockAt(u, 0))
      && t == RenderHours(ClockAt(t, 0), !LastHoursGroup(t[5..]), ClockAt(u, 0), |u| == 6)
  {
    var sep := !LastHoursGroup(t[5..]);
    var u := if sep then t[6..] else t[5..];
    ClockText(t);
    LastGroupRendered(u);
    assert t == t[..5] + Hyphen(sep) + u;
  }

  /** Every string the hours recogniser accepts is one the expression denotes. */
  lemma AcceptedHoursRendered(s: string)
    requires WorkingHoursValid(s)
    ensures exists start: Clock, sep: bool, end: Clock, trailing: bool, nl: bool ::
      ClockInDay(start) && ClockInDay(end) && s == RenderHours(start, sep, end, trailing) + Newline(nl)
  {
    var nl := !HoursGroups(s);
    var t := if nl then s[..|s| - 1] else s;
    assert s == t + Newline(nl);
    HoursGroupsRendered(t);
    var u := if LastHoursGroup(t[5..]) then t[5..] else t[6..];
    assert s == RenderHours(ClockAt(t, 0), !LastHoursGroup(t[5..]), ClockAt(u, 0), |u| == 6) + Newline(nl);
  }

  /** The working-hours validator accepts exactly two times of day, each
      optionally followed by a hyphen, optionally followed by one newline. */
  lemma WorkingHoursValidIff(s: string)
    ensures WorkingHoursValid(s) <==>
      exists start: Clock, sep: bool, end: Clock, trailing: bool, nl: bool ::
        ClockInDay(start) && ClockInDay(end) && s == RenderHours(start, sep, end, trailing) + Newline(nl)
  {
    if WorkingHoursValid(s) {
      AcceptedHoursRendered(s);
    }
    if exists start: Clock, sep: bool, end: Clock, trailing: bool, nl: bool ::
         ClockInDay(start) && ClockInDay(end) && s == RenderHours(start, sep, end, trailing) + Newline(nl)
    {
      var start: Clock, sep: bool, end: Clock, trailing: bool, nl: bool :|
        ClockInDay(start) && ClockInDay(end) && s == RenderHours(start, sep, end, trailing) + Newline(nl);
      RenderedHoursMatch(start, sep, end, trailing, nl);
    }
  }

  /** The validator outcomes the unit tests pin. */
  lemma WorkingHoursExamples()
    ensures WorkingHoursValid("00:00-23:59")
    ensures !WorkingHoursValid("0:00-23:59")
    ensures !WorkingHoursValid("00:0-23:59")
    ensures !WorkingHoursValid("00:00 23:59")
    ensures !WorkingHoursValid("")
  {
    assert "00:00-23:59"[5..] == "-23:59";
    assert "00:00-23:59"[6..] == "23:59";
    assert "23:59"[5..] == [];
    assert "00:00 23:59"[5..] == " 23:59";
  }

  /** The corrected hours validator `^(HH:MM)-(HH:MM)-?$`: a hyphen is
      required between the two times, which is what the parse needs. */
  predicate SeparatedHours(t: string)
  {
    StartsWithClock(t) && |t| > 5 && t[5] == '-' && LastHoursGroup(t[6..])
  }

  predicate SeparatedHoursValid(s: string)
  {
    SeparatedHours(s) || (s != [] && s[|s| - 1] == '\n' && SeparatedHours(s[..|s| - 1]))
  }

  /** The corrected validator accepts a subset of what the written one accepts. */
  lemma SeparatedHoursAreValid(s: string)
    requires SeparatedHoursValid(s)
    ensures WorkingHoursValid(s)
  {
  }

  // ---------------------------------------------------------------------
  // re.findall(r'(\d+):(\d+)', working_hours), then int() of each part
  // ---------------------------------------------------------------------

  /** End of the maximal digit run starting at i, which is what a greedy `\d+` consumes. */
  function DigitRun(s: string, i: nat): (j: nat)
    requires i <= |s|
    ensures i <= j <= |s|
    ensures forall k :: i <= k < j ==> IsDigit(s[k])
    ensures j == |s| || !IsDigit(s[j])
    decreases |s| - i
  {
    if i < |s| && IsDigit(s[i]) then DigitRun(s, i + 1) else i
  }

  /** The non-overlapping matches of `(\d+):(\d+)` from position i on, each
      converted with int(); a failed attempt moves on by one character. */
  function FindClocks(s: string, i: nat): seq<Clock>
    requires i <= |s|
    decreases |s| - i
  {
    if i == |s| then []
    else
      var j := DigitRun(s, i);
      if i < j < |s| && s[j] == ':' && DigitRun(s, j + 1) > j + 1 then
        var k := DigitRun(s, j + 1);
        [Clock(Value(s[i..j]), Value(s[j + 1..k]))] + FindClocks(s, k)
      else FindClocks(s, i + 1)
  }

  lemma {:induction false} FindClocksNoDigits(s: string, i: nat)
    requires i <= |s|
    requires forall k :: i <= k < |s| ==> !IsDigit(s[k])
    ensures FindClocks(s, i) == []
    decreases |s| - i
  {
    if i < |s| {
      FindClocksNoDigits(s, i + 1);
    }
  }

  /** With a hyphen after the first time, exactly the two times are found. */
  lemma FindClocksOfSeparated(s: string)
    requires |s| >= 11 && StartsWithClock(s) && s[5] == '-' && StartsWithClock(s[6..])
    requires forall k :: 11 <= k < |s| ==> !IsDigit(s[k])
    ensures FindClocks(s, 0) == [ClockAt(s, 0), ClockAt(s, 6)]
  {
    assert s[6..][0] == s[6] && s[6..][1] == s[7] && s[6..][2] == s[8];
    assert s[6..][3] == s[9] && s[6..][4] == s[10];
    assert DigitRun(s, 2) == 2;
    assert DigitRun(s, 1) == 2;
    assert DigitRun(s, 0) == 2;
    assert DigitRun(s, 5) == 5;
    assert DigitRun(s, 4) == 5;
    assert DigitRun(s, 3) == 5;
    assert FindClocks(s, 0) == [ClockAt(s, 0)] + FindClocks(s, 5);
    assert FindClocks(s, 5) == FindClocks(s, 6);
    assert DigitRun(s, 8) == 8;
    assert DigitRun(s, 7) == 8;
    assert DigitRun(s, 6) == 8;
    assert DigitRun(s, 11) == 11;
    assert DigitRun(s, 10) == 11;
    assert DigitRun(s, 9) == 11;
    assert FindClocks(s, 6) == [ClockAt(s, 6)] + FindClocks(s, 11);
    FindClocksNoDigits(s, 11);
  }

  // ---------------------------------------------------------------------
  // Restaurant.computed_worktimes
  // ---------------------------------------------------------------------

  /** The wall clock in UTC: hour, minute and weekday number (0 is Sunday). */
  datatype Now = Now(hour: nat, minute: nat, weekday: nat)

  datatype Worktimes = Worktimes(isOpen: bool, workingDays: map<string, bool>, workingHours: string)

  /** Indexing past the end of a findall result. */
  datatype WorktimesError = IndexError

  /** The restaurant's local time: the UTC hour shifted by its offset,
      wrapped into the day. */
  function LocalTime(now: Now, gmt: int): (c: Clock)
    ensures c.hour < 24 && c.minute == now.minute
    ensures (now.hour + gmt - c.hour) % 24 == 0
  {
    Clock((now.hour + gmt) % 24, now.minute)
  }

  lemma DaysDistinct()
    ensures forall i, j :: 0 <= i < j < 7 ==> DAYS[i] != DAYS[j]
  {
    forall i, j | 0 <= i < j < 7 ensures DAYS[i] != DAYS[j] {
      assert DAYS[i][0] != DAYS[j][0] || DAYS[i][1] != DAYS[j][1];
    }
  }

  /** The day-name to flag table built from the first seven flags. */
  function WorkingDaysMap(flags: string): (m: map<string, bool>)
    requires |flags| >= 7
    ensures forall i :: 0 <= i < 7 ==> DAYS[i] in m && m[DAYS[i]] == (flags[i] == '1')
    ensures forall d :: d in m ==> d in DAYS
  {
    DaysDistinct();
    map i | 0 <= i < 7 :: DAYS[i] := flags[i] == '1'
  }

  /** Restaurant.computed_worktimes: the day table, the shown hours and
      whether the restaurant is open at `now`. A field that yields too few
      findall matches raises IndexError. */
  function ComputedWorktimes(workingDays: string, workingHours: string, gmt: int, isActive: bool, now: Now)
    : Result<Worktimes, WorktimesError>
    requires now.weekday < 7
  {
    var flags := Flags(workingDays);
    if |flags| < 7 then Failure(IndexError)
    else
      var days := WorkingDaysMap(flags);
      var local := LocalTime(now, gmt);
      var found := FindClocks(workingHours, 0);
      if |found| < 2 then Failure(IndexError)
      else
        var start, end := found[0], found[1];
        var shown := FormatClock(start) + " - " + FormatClock(end);
        var open := isActive && (days[DAYS[now.weekday]] && Before(start, local) && Before(local, end));
        Success(Worktimes(open, days, shown))
  }

  /** The layout of an hours field the corrected validator accepts. */
  lemma SeparatedShape(hours: string)
    requires SeparatedHoursValid(hours)
    ensures |hours| >= 11 && StartsWithClock(hours) && hours[5] == '-' && StartsWithClock(hours[6..])
    ensures forall k :: 11 <= k < |hours| ==> !IsDigit(hours[k])
  {
    var t := if SeparatedHours(hours) then hours else hours[..|hours| - 1];
    assert SeparatedHours(t);
    var u := t[6..];
    assert u[5..] == [] || u[5..] == "-";
    assert hours[..|t|] == t;
    assert forall k :: 0 <= k < |t| ==> hours[k] == t[k];
    assert forall k :: 11 <= k < |hours| ==> hours[k] == '-' || hours[k] == '\n';
    assert hours[6..][..5] == u[..5];
  }

  /** The two times of a corrected hours field are shown exactly as written. */
  lemma SeparatedClocks(hours: string)
    requires |hours| >= 11 && StartsWithClock(hours) && StartsWithClock(hours[6..])
    ensures FormatClock(ClockAt(hours, 0)) == hours[..5]
    ensures FormatClock(ClockAt(hours, 6)) == hours[6..11]
  {
    ClockText(hours);
    ClockText(hours[6..]);
    assert hours[6..][0..2] == hours[6..8] && hours[6..][3..5] == hours[9..11];
    assert ClockAt(hours[6..], 0) == ClockAt(hours, 6);
    assert hours[6..][..5] == hours[6..11];
  }

  /** On fields the corrected validators accept, the computation succeeds:
      day i is on exactly when the i-th flag is `1`, the hours are shown as
      the two times exactly as written joined by " - ", and the restaurant
      is open exactly when it is active, today's (UTC) flag is on and the
      local time lies strictly between the two times. */
  lemma WorktimesOfValidFields(days: string, hours: string, gmt: int, isActive: bool, now: Now)
    requires WorkingDaysValid(days) && SeparatedHoursValid(hours) && now.weekday < 7
    ensures |Flags(days)| == 7 && |hours| >= 11
    ensures ComputedWorktimes(days, hours, gmt, isActive, now).Success?
    ensures var w := ComputedWorktimes(days, hours, gmt, isActive, now).value;
      && (forall i :: 0 <= i < 7 ==> DAYS[i] in w.workingDays && w.workingDays[DAYS[i]] == (Flags(days)[i] == '1'))
      && w.workingHours == hours[..5] + " - " + hours[6..11]
      && (w.isOpen <==>
            isActive && Flags(days)[now.weekday] == '1'
            && Before(ClockAt(hours, 0), LocalTime(now, gmt)) && Before(LocalTime(now, gmt), ClockAt(hours, 6)))
  {
    FlagCountOfValid(days);
    SeparatedShape(hours);
    FindClocksOfSeparated(hours);
    SeparatedClocks(hours);
  }

  /** An inactive restaurant is never open. */
  lemma InactiveNeverOpen(days: string, hours: string, gmt: int, now: Now)
    requires now.weekday < 7
    ensures ComputedWorktimes(days, hours, gmt, false, now).Success? ==>
      !ComputedWorktimes(days, hours, gmt, false, now).value.isOpen
  {
  }

  /** A range whose start is not before its end (no overnight ranges) is never open. */
  lemma EmptyRangeNeverOpen(days: string, hours: string, gmt: int, isActive: bool, now: Now)
    requires now.weekday < 7
    requires |FindClocks(hours, 0)| >= 2 && !Before(FindClocks(hours, 0)[0], FindClocks(hours, 0)[1])
    ensures ComputedWorktimes(days, hours, gmt, isActive, now).Success? ==>
      !ComputedWorktimes(days, hours, gmt, isActive, now).value.isOpen
  {
  }

  lemma FoodyDays()
    ensures WorkingDaysValid("0111110") && Flags("0111110") == "0111110"
  {
    RenderedDaysMatch("0111110", [0, 0, 0, 0, 0, 0, 0]);
    assert RenderDays("0111110", [0, 0, 0, 0, 0, 0, 0]) == "0111110";
    FlagsOfRendered("0111110", [0, 0, 0, 0, 0, 0, 0], false);
    assert RenderDays("0111110", [0, 0, 0, 0, 0, 0, 0]) + Newline(false) == "0111110";
  }

  lemma FoodyHours()
    ensures SeparatedHoursValid("09:30-15:30")
    ensures "09:30-15:30"[..5] + " - " + "09:30-15:30"[6..11] == "09:30 - 15:30"
  {
    assert "09:30-15:30"[6..] == "15:30";
    assert "15:30"[5..] == [];
    assert SeparatedHours("09:30-15:30");
  }

  /** A table built from seven flags, read by day name. */
  lemma DayNames(m: map<string, bool>, f: string)
    requires |f| >= 7
    requires forall i :: 0 <= i < 7 ==> DAYS[i] in m && m[DAYS[i]] == (f[i] == '1')
    ensures "Sun" in m && m["Sun"] == (f[0] == '1')
    ensures "Mon" in m && m["Mon"] == (f[1] == '1')
    ensures "Tue" in m && m["Tue"] == (f[2] == '1')
    ensures "Wed" in m && m["Wed"] == (f[3] == '1')
    ensures "Thu" in m && m["Thu"] == (f[4] == '1')
    ensures "Fri" in m && m["Fri"] == (f[5] == '1')
    ensures "Sat" in m && m["Sat"] == (f[6] == '1')
  {
    assert DAYS[0] == "Sun" && DAYS[1] == "Mon" && DAYS[2] == "Tue" && DAYS[3] == "Wed";
    assert DAYS[4] == "Thu" && DAYS[5] == "Fri" && DAYS[6] == "Sat";
  }

  /** The unit test's restaurant: "0111110" and "09:30-15:30". */
  lemma FoodyWorktimes(gmt: int, now: Now)
    requires now.weekday < 7
    ensures ComputedWorktimes("0111110", "09:30-15:30", gmt, false, now).Success?
    ensures var w := ComputedWorktimes("0111110", "09:30-15:30", gmt, false, now).value;
      && (forall d :: d in w.workingDays ==> d in DAYS)
      && "Sun" in w.workingDays && "Mon" in w.workingDays && "Tue" in w.workingDays && "Wed" in w.workingDays
      && "Thu" in w.workingDays && "Fri" in w.workingDays && "Sat" in w.workingDays
      && !w.workingDays["Sun"] && w.workingDays["Mon"] && w.workingDays["Tue"] && w.workingDays["Wed"]
      && w.workingDays["Thu"] && w.workingDays["Fri"] && !w.workingDays["Sat"]
      && w.workingHours == "09:30 - 15:30"
      && !w.isOpen
  {
    FoodyDays();
    FoodyHours();
    WorktimesOfValidFields("0111110", "09:30-15:30", gmt, false, now);
    var w := ComputedWorktimes("0111110", "09:30-15:30", gmt, false, now).value;
    DayNames(w.workingDays, "0111110");
  }

  lemma UnseparatedAccepted()
    ensures WorkingHoursValid("09:3015:30")
    ensures !SeparatedHoursValid("09:3015:30")
  {
    assert "09:3015:30"[5..] == "15:30";
    assert "09:3015:30"[5..][5..] == [];
  }

  /** The layout of an hours field the written validator accepts and the
      corrected one refuses: two times with nothing between them. */
  lemma UnseparatedShape(hours: string)
    requires WorkingHoursValid(hours) && !SeparatedHoursValid(hours)
    ensures |hours| >= 10 && hours[2] == ':' && hours[7] == ':'
    ensures IsDigit(hours[0]) && IsDigit(hours[1]) && IsDigit(hours[3]) && IsDigit(hours[4])
    ensures IsDigit(hours[5]) && IsDigit(hours[6]) && IsDigit(hours[8]) && IsDigit(hours[9])
    ensures forall k :: 10 <= k < |hours| ==> !IsDigit(hours[k])
  {
    var t := if HoursGroups(hours) then hours else hours[..|hours| - 1];
    assert HoursGroups(t) && !SeparatedHours(t);
    var u := t[5..];
    assert LastHoursGroup(u);
    assert u[5..] == [] || u[5..] == "-";
    assert forall k :: 0 <= k < |t| ==> hours[k] == t[k];
    assert forall k :: 0 <= k < |u| ==> t[5 + k] == u[k];
    assert forall k :: 10 <= k < |hours| ==> hours[k] == '-' || hours[k] == '\n';
  }

  /** With the two times run together, findall finds a single match: the
      first hour, and the first minutes glued to the second hour. */
  lemma FindClocksOfUnseparated(s: string)
    requires |s| >= 10 && s[2] == ':' && s[7] == ':'
    requires IsDigit(s[0]) && IsDigit(s[1]) && IsDigit(s[3]) && IsDigit(s[4])
    requires IsDigit(s[5]) && IsDigit(s[6]) && IsDigit(s[8]) && IsDigit(s[9])
    requires forall k :: 10 <= k < |s| ==> !IsDigit(s[k])
    ensures FindClocks(s, 0) == [Clock(Value(s[0..2]), Value(s[3..7]))]
  {
    assert DigitRun(s, 2) == 2 && DigitRun(s, 1) == 2 && DigitRun(s, 0) == 2;
    assert DigitRun(s, 7) == 7 && DigitRun(s, 6) == 7 && DigitRun(s, 5) == 7;
    assert DigitRun(s, 4) == 7 && DigitRun(s, 3) == 7;
    assert FindClocks(s, 0) == [Clock(Value(s[0..2]), Value(s[3..7]))] + FindClocks(s, 7);
    assert DigitRun(s, 10) == 10 && DigitRun(s, 9) == 10 && DigitRun(s, 8) == 10;
    assert FindClocks(s, 7) == FindClocks(s, 8);
    assert FindClocks(s, 8) == FindClocks(s, 9);
    assert FindClocks(s, 9) == FindClocks(s, 10);
    FindClocksNoDigits(s, 10);
  }

  /** Every hours field the written validator accepts without a hyphen
      between the two times makes computed_worktimes raise IndexError,
      whatever the day field, the offset and the clock. */
  lemma UnseparatedHoursFail(days: string, hours: string, gmt: int, isActive: bool, now: Now)
    requires now.weekday < 7
    requires WorkingHoursValid(hours) && !SeparatedHoursValid(hours)
    ensures FindClocks(hours, 0) == [Clock(Value(hours[0..2]), Value(hours[3..7]))]
    ensures ComputedWorktimes(days, hours, gmt, isActive, now) == Failure(IndexError)
  {
    UnseparatedShape(hours);
    FindClocksOfUnseparated(hours);
  }

  /** The written hours validator admits a missing hyphen between the two
      times, but then the first time's minutes run into the second time's
      hour, findall yields a single match and the parse raises IndexError. */
  lemma UnseparatedHoursBreakParse(gmt: int, isActive: bool, now: Now)
    requires now.weekday < 7
    ensures WorkingHoursValid("09:3015:30")
    ensures !SeparatedHoursValid("09:3015:30")
    ensures ComputedWorktimes("0111110", "09:3015:30", gmt, isActive, now) == Failure(IndexError)
  {
    UnseparatedAccepted();
    UnseparatedHoursFail("0111110", "09:3015:30", gmt, isActive, now);
  }
}
