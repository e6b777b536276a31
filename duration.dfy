/**
 * `duration_hms`: a number of seconds rendered as "Hh Mm Ss", where the hour
 * part appears only when the hour count is nonzero, the minute part only when
 * the minute count is nonzero, and the seconds part always, last.
 *
 * Python's `//` and `%` floor; for the positive divisors used here they agree
 * with Dafny's Euclidean `/` and `%`, negative inputs included.
 */
module Duration {
  import opened Wrappers
  import opened Text
  import Clock

  function Hours(seconds: int): int {
    seconds / 3600
  }

  function Minutes(seconds: int): int {
    (seconds % 3600) / 60
  }

  function Secs(seconds: int): int {
    seconds % 60
  }

  /** The three counts recombine to the input, with minutes and seconds in 0..59. */
  lemma HmsDecomposition(seconds: int)
    ensures Hours(seconds) * 3600 + Minutes(seconds) * 60 + Secs(seconds) == seconds
    ensures 0 <= Minutes(seconds) < 60 && 0 <= Secs(seconds) < 60
  {
    var h, rest := seconds / 3600, seconds % 3600;
    var m, s := rest / 60, rest % 60;
    assert seconds == h * 3600 + rest;
    assert rest == m * 60 + s;
    assert seconds == (h * 60 + m) * 60 + s;
    Clock.DivisionIsUnique(seconds, 60, h * 60 + m);
  }

  /** The `parts` list that `duration_hms` builds before joining it with spaces. */
  function HmsParts(seconds: int): seq<string> {
    PartsOf(Hours(seconds), Minutes(seconds), Secs(seconds))
  }

  /** One part such as `f"{h}h"`: the count followed by its unit letter. */
  function Part(count: int, unit: char): string {
    IntToString(count) + [unit]
  }

  function PartsOf(h: int, m: int, s: int): seq<string> {
    (if h != 0 then [Part(h, 'h')] else []) + MinutesSecondsParts(m, s)
  }

  function MinutesSecondsParts(m: int, s: int): seq<string> {
    (if m != 0 then [Part(m, 'm')] else []) + [Part(s, 's')]
  }

  function DurationHms(seconds: int): (text: string)
    ensures 2 <= |text| && text[|text| - 1] == 's'
  {
    var parts := HmsParts(seconds);
    JoinEndsWithLast(parts, ' ');
    Join(parts, ' ')
  }

  lemma {:induction false} JoinEndsWithLast(parts: seq<string>, sep: char)
    requires 1 <= |parts|
    ensures |Join(parts, sep)| >= |parts[|parts| - 1]|
    ensures Join(parts, sep)[|Join(parts, sep)| - |parts[|parts| - 1]|..] == parts[|parts| - 1]
    decreases |parts|
  {
    if |parts| > 1 {
      JoinEndsWithLast(parts[1..], sep);
    }
  }

  /** The number of seconds one part such as "12m" stands for: its count times the unit's length. */
  function PartSeconds(part: string): Option<int> {
    if |part| == 0 then None
    else match ParseInt(part[..|part| - 1])
      case None => None
      case Some(count) =>
        var unit := part[|part| - 1];
        if unit == 'h' then Some(count * 3600)
        else if unit == 'm' then Some(count * 60)
        else if unit == 's' then Some(count)
        else None
  }

  function SumParts(parts: seq<string>): Option<int> {
    if |parts| == 0 then Some(0)
    else match (PartSeconds(parts[0]), SumParts(parts[1..]))
      case (Some(x), Some(rest)) => Some(x + rest)
      case _ => None
  }

  /** Reads a human duration back: split on spaces and add up the parts. */
  function ParseDuration(text: string): Option<int> {
    SumParts(Split(text, ' '))
  }

  lemma PartSecondsOf(count: int, unit: char, weight: int)
    requires (unit == 'h' && weight == 3600) || (unit == 'm' && weight == 60) || (unit == 's' && weight == 1)
    ensures PartSeconds(Part(count, unit)) == Some(count * weight)
  {
    var part := Part(count, unit);
    assert part[..|part| - 1] == IntToString(count);
    ParseIntOfIntToString(count);
  }

  lemma NoSpaceInPart(count: int, unit: char)
    requires unit != ' '
    ensures ' ' !in Part(count, unit)
  {
    var p := Part(count, unit);
    assert forall k :: 0 <= k < |p| - 1 ==> p[k] == IntToString(count)[k];
  }

  lemma NoSpaceInParts(h: int, m: int, s: int)
    ensures forall k :: 0 <= k < |PartsOf(h, m, s)| ==> ' ' !in PartsOf(h, m, s)[k]
  {
    NoSpaceInPart(h, 'h');
    NoSpaceInPart(m, 'm');
    NoSpaceInPart(s, 's');
  }

  lemma SumPartsPrepend(part: string, rest: seq<string>, x: int, y: int)
    requires PartSeconds(part) == Some(x) && SumParts(rest) == Some(y)
    ensures SumParts([part] + rest) == Some(x + y)
  {
    assert ([part] + rest)[1..] == rest;
  }

  /** Reading an optional leading part adds its seconds, when it is there, to those of the rest. */
  lemma SumPartsOptional(present: bool, part: string, rest: seq<string>, x: int, y: int)
    requires present ==> PartSeconds(part) == Some(x)
    requires SumParts(rest) == Some(y)
    ensures SumParts((if present then [part] else []) + rest) == Some((if present then x else 0) + y)
  {
    if present {
      SumPartsPrepend(part, rest, x, y);
    } else {
      assert [] + rest == rest;
    }
  }

  lemma SumMinutesSecondsParts(m: int, s: int)
    ensures SumParts(MinutesSecondsParts(m, s)) == Some(m * 60 + s)
  {
    PartSecondsOf(s, 's', 1);
    SumPartsPrepend(Part(s, 's'), [], s, 0);
    assert [Part(s, 's')] + [] == [Part(s, 's')];
    if m != 0 {
      PartSecondsOf(m, 'm', 60);
    }
    SumPartsOptional(m != 0, Part(m, 'm'), [Part(s, 's')], m * 60, s);
  }

  lemma SumPartsWithHours(h: int, tail: seq<string>, y: int)
    requires SumParts(tail) == Some(y)
    ensures SumParts([Part(h, 'h')] + tail) == Some(h * 3600 + y)
  {
    PartSecondsOf(h, 'h', 3600);
    SumPartsPrepend(Part(h, 'h'), tail, h * 3600, y);
  }

  lemma SumPartsNoHours(m: int, s: int)
    ensures SumParts(PartsOf(0, m, s)) == Some(m * 60 + s)
  {
    SumMinutesSecondsParts(m, s);
    assert PartsOf(0, m, s) == MinutesSecondsParts(m, s);
  }

  lemma SumPartsHours(h: int, m: int, s: int)
    requires h != 0
    ensures SumParts(PartsOf(h, m, s)) == Some(h * 3600 + m * 60 + s)
  {
    SumMinutesSecondsParts(m, s);
    SumPartsWithHours(h, MinutesSecondsParts(m, s), m * 60 + s);
  }

  lemma SumPartsOf(h: int, m: int, s: int)
    ensures SumParts(PartsOf(h, m, s)) == Some(h * 3600 + m * 60 + s)
  {
    if h != 0 {
      SumPartsHours(h, m, s);
    } else {
      SumPartsNoHours(m, s);
    }
  }

  /** `duration_hms` loses nothing: its text reads back as the number of seconds it was given. */
  lemma ParseDurationHms(seconds: int)
    ensures ParseDuration(DurationHms(seconds)) == Some(seconds)
  {
    HmsDecomposition(seconds);
    ReadBackParts(Hours(seconds), Minutes(seconds), Secs(seconds), seconds);
  }

  lemma ReadBackParts(h: int, m: int, s: int, total: int)
    requires h * 3600 + m * 60 + s == total
    ensures ParseDuration(Join(PartsOf(h, m, s), ' ')) == Some(total)
  {
    NoSpaceInParts(h, m, s);
    SplitJoin(PartsOf(h, m, s), ' ');
    SumPartsOf(h, m, s);
  }

  /** Different durations never print the same. */
  lemma DurationHmsInjective(a: int, b: int)
    requires DurationHms(a) == DurationHms(b)
    ensures a == b
  {
    ParseDurationHms(a);
    ParseDurationHms(b);
  }

  /**
   * The shape of the text: the seconds part is always present and last; an
   * hours part leads exactly when the hour count is nonzero, and a minutes part
   * precedes the seconds exactly when the minute count is nonzero.
   */
  lemma DurationHmsShape(seconds: int)
    ensures var parts := Split(DurationHms(seconds), ' ');
      && |parts| == 1 + (if Hours(seconds) != 0 then 1 else 0) + (if Minutes(seconds) != 0 then 1 else 0)
      && parts[|parts| - 1] == IntToString(Secs(seconds)) + "s"
      && (Hours(seconds) != 0 ==> parts[0] == IntToString(Hours(seconds)) + "h")
      && (Minutes(seconds) != 0 ==> parts[|parts| - 2] == IntToString(Minutes(seconds)) + "m")
  {
    NoSpaceInParts(Hours(seconds), Minutes(seconds), Secs(seconds));
    SplitJoin(HmsParts(seconds), ' ');
  }

  /** Below a minute only the seconds part is printed. */
  lemma SecondsOnlyExamples()
    ensures DurationHms(0) == "0s"
    ensures DurationHms(59) == "59s"
  {
    assert Hours(59) == 0 && Minutes(59) == 0 && Secs(59) == 59;
    assert IntToString(0) == "0" && IntToString(59) == "59";
  }

  lemma MinutesExamples()
    ensures DurationHms(60) == "1m 0s"
    ensures DurationHms(65) == "1m 5s"
    ensures DurationHms(125) == "2m 5s"
  {
    assert Hours(60) == 0 && Minutes(60) == 1 && Secs(60) == 0;
    assert Hours(65) == 0 && Minutes(65) == 1 && Secs(65) == 5;
    assert Hours(125) == 0 && Minutes(125) == 2 && Secs(125) == 5;
    assert IntToString(0) == "0" && IntToString(1) == "1" && IntToString(2) == "2" && IntToString(5) == "5";
  }

  /** A whole hour prints no minutes part: 3600 seconds is "1h 0s", not "1h 0m 0s". */
  lemma WholeHourExample()
    ensures DurationHms(3600) == "1h 0s"
  {
    assert Hours(3600) == 1 && Minutes(3600) == 0 && Secs(3600) == 0;
    assert IntToString(1) == "1" && IntToString(0) == "0";
  }

  lemma HourMinuteSecondExample()
    ensures DurationHms(3661) == "1h 1m 1s"
  {
    assert Hours(3661) == 1 && Minutes(3661) == 1 && Secs(3661) == 1;
    assert IntToString(1) == "1";
  }

  /** Negative inputs follow floor division: -1 second is minus one hour plus 59m 59s. */
  lemma NegativeExample()
    ensures DurationHms(-1) == "-1h 59m 59s"
  {
    assert Hours(-1) == -1 && Minutes(-1) == 59 && Secs(-1) == 59;
    assert IntToString(-1) == "-1" && IntToString(59) == "59";
  }
}
