/**
 * The reminder document (`users`: user id to "HH:MM" in UTC+7), the
 * `/set_reminder` and `/remove_reminder` commands, and the per-minute sweep
 * of `check_reminders` that picks the users to remind.
 */
module Reminders {
  import opened Wrappers
  import opened Text
  import opened Clock

  /**
   * The validation of `/set_reminder`: `hour, minute = map(int, s.split(":"))`
   * followed by the range check. Exactly two parts, both integer literals,
   * hour in 0..23 and minute in 0..59; anything else raises and is rejected.
   */
  function ParseTime(timeStr: string): (r: Option<(int, int)>)
    ensures r.Some? ==> 0 <= r.value.0 <= 23 && 0 <= r.value.1 <= 59
  {
    var parts := Split(timeStr, ':');
    if |parts| != 2 then None
    else match (ParseInt(parts[0]), ParseInt(parts[1]))
      case (Some(hour), Some(minute)) =>
        if 0 <= hour <= 23 && 0 <= minute <= 59 then Some((hour, minute)) else None
      case _ => None
  }

  /**
   * A time string is accepted exactly when it is two integer literals around
   * one colon, with the hour in 0..23 and the minute in 0..59.
   */
  lemma ParseTimeAccepts(timeStr: string, hour: int, minute: int)
    ensures ParseTime(timeStr) == Some((hour, minute)) <==>
      exists a: string, b: string ::
        && timeStr == a + ":" + b
        && ':' !in a && ':' !in b
        && ParseInt(a) == Some(hour) && ParseInt(b) == Some(minute)
        && 0 <= hour <= 23 && 0 <= minute <= 59
  {
    if ParseTime(timeStr) == Some((hour, minute)) {
      var parts := Split(timeStr, ':');
      JoinSplit(timeStr, ':');
      assert parts[1..] == [parts[1]];
      assert timeStr == parts[0] + ":" + parts[1];
    }
    if exists a: string, b: string ::
        && timeStr == a + ":" + b
        && ':' !in a && ':' !in b
        && ParseInt(a) == Some(hour) && ParseInt(b) == Some(minute)
        && 0 <= hour <= 23 && 0 <= minute <= 59
    {
      var a: string, b: string :|
        && timeStr == a + ":" + b
        && ':' !in a && ':' !in b
        && ParseInt(a) == Some(hour) && ParseInt(b) == Some(minute)
        && 0 <= hour <= 23 && 0 <= minute <= 59;
      SplitAtFirstSeparator(a, ':', b);
      SplitWithoutSeparator(b, ':');
    }
  }

  /** strftime's `%H` or `%M`: two digits, zero-padded. */
  function Pad2(n: nat): (s: string)
    requires n < 100
    ensures |s| == 2 && AllDigits(s)
  {
    [DigitChar(n / 10), DigitChar(n % 10)]
  }

  /** `strftime("%H:%M")` for an hour and a minute. */
  function FormatHHMM(hour: nat, minute: nat): (s: string)
    requires hour < 24 && minute < 60
    ensures |s| == 5 && s[2] == ':'
  {
    Pad2(hour) + ":" + Pad2(minute)
  }

  lemma ParseIntOfPad2(n: nat)
    requires n < 100
    ensures ParseInt(Pad2(n)) == Some(n)
  {
    ParseIntTwoDigits(Pad2(n));
  }

  /** Every zero-padded time is accepted and reads back as the same hour and minute. */
  lemma ParseFormatHHMM(hour: nat, minute: nat)
    requires hour < 24 && minute < 60
    ensures ParseTime(FormatHHMM(hour, minute)) == Some((hour, minute))
  {
    ParseIntOfPad2(hour);
    ParseIntOfPad2(minute);
    ParseTimeAccepts(FormatHHMM(hour, minute), hour, minute);
    assert FormatHHMM(hour, minute) == Pad2(hour) + ":" + Pad2(minute);
    assert ':' !in Pad2(hour) && ':' !in Pad2(minute);
  }

  /** The text `check_reminders` compares against: the UTC+7 wall clock at `now` as "HH:MM". */
  function LocalHHMM(now: Instant): (current: string)
    ensures |current| == 5
    ensures ParseTime(current).Some? && MinuteOfDay(current) == LocalMinuteOfDay(now)
  {
    var minute := LocalMinuteOfDay(now);
    ParseFormatHHMM(minute / 60, minute % 60);
    FormatHHMM(minute / 60, minute % 60)
  }

  lemma LocalHHMMAt(now: Instant, hour: nat, minute: nat)
    requires hour < 24 && minute < 60 && LocalMinuteOfDay(now) == hour * 60 + minute
    ensures LocalHHMM(now) == FormatHHMM(hour, minute)
  {
    DivisionIsUnique(hour * 60 + minute, 60, hour);
  }

  /** A stored time that `strftime("%H:%M")` can produce: accepted, and already zero-padded. */
  predicate IsPadded(timeStr: string) {
    match ParseTime(timeStr)
    case Some((hour, minute)) => timeStr == FormatHHMM(hour, minute)
    case None => false
  }

  /** The minute of the day an accepted time string names. */
  function MinuteOfDay(timeStr: string): (minute: int)
    requires ParseTime(timeStr).Some?
    ensures 0 <= minute < MINUTES_PER_DAY
  {
    ParseTime(timeStr).value.0 * 60 + ParseTime(timeStr).value.1
  }

  /**
   * The sweep's comparison `time_str == current` holds exactly when the stored
   * time is zero-padded and names the current UTC+7 minute of the day.
   */
  lemma MatchesLocalTime(timeStr: string, now: Instant)
    ensures timeStr == LocalHHMM(now) <==> IsPadded(timeStr) && MinuteOfDay(timeStr) == LocalMinuteOfDay(now)
  {
    var minute := LocalMinuteOfDay(now);
    ParseFormatHHMM(minute / 60, minute % 60);
    if IsPadded(timeStr) {
      var hm := ParseTime(timeStr).value;
      if hm.0 * 60 + hm.1 == minute {
        DivisionIsUnique(minute, 60, hm.0);
      }
    }
  }

  /** A string with exactly one colon splits into the text before it and the text after it. */
  lemma SplitAroundColon(a: string, b: string)
    requires ':' !in a && ':' !in b
    ensures Split(a + ":" + b, ':') == [a, b]
  {
    SplitAtFirstSeparator(a, ':', b);
    SplitWithoutSeparator(b, ':');
  }

  /** A time with one colon is judged on the two integers around it. */
  lemma ParseTimeOfParts(a: string, b: string, hour: int, minute: int)
    requires ':' !in a && ':' !in b
    requires ParseInt(a) == Some(hour) && ParseInt(b) == Some(minute)
    ensures ParseTime(a + ":" + b) == if 0 <= hour <= 23 && 0 <= minute <= 59 then Some((hour, minute)) else None
  {
    SplitAroundColon(a, b);
  }

  /** A stored string such as "7:30" passes validation but never equals any sweep's "HH:MM". */
  lemma UnpaddedNeverMatches(now: Instant)
    ensures ParseTime("7:30") == Some((7, 30))
    ensures LocalHHMM(now) != "7:30"
  {
    ParseIntOneDigit("7");
    ParseIntTwoDigits("30");
    ParseTimeOfParts("7", "30", 7, 30);
    assert "7" + ":" + "30" == "7:30";
  }

  /** "07:5" is accepted as 07:05: `int` does not ask for two digits. */
  lemma AcceptsUnpaddedMinute()
    ensures ParseTime("07:5") == Some((7, 5))
  {
    ParseIntTwoDigits("07");
    ParseIntOneDigit("5");
    ParseTimeOfParts("07", "5", 7, 5);
    assert "07" + ":" + "5" == "07:5";
  }

  /** "25:00" is rejected: the hour is out of range. */
  lemma RejectsHourOutOfRange()
    ensures ParseTime("25:00") == None
  {
    ParseIntTwoDigits("25");
    ParseIntTwoDigits("00");
    ParseTimeOfParts("25", "00", 25, 0);
    assert "25" + ":" + "00" == "25:00";
  }

  /** "07:30:00" is rejected: it splits into three parts. */
  lemma RejectsSeconds()
    ensures ParseTime("07:30:00") == None
  {
    SplitAtFirstSeparator("07", ':', "30:00");
    SplitAtFirstSeparator("30", ':', "00");
    assert "07" + [':'] + "30:00" == "07:30:00";
    assert "30" + [':'] + "00" == "30:00";
  }

  /** "0730" is rejected: without a colon there is only one part. */
  lemma RejectsMissingColon()
    ensures ParseTime("0730") == None
  {
    SplitWithoutSeparator("0730", ':');
  }

  datatype SetResult = InvalidTimeFormat | ReminderSet

  datatype RemoveResult = NoReminderSet | ReminderRemoved

  class ReminderRegistry {
    var users: map<string, string>
    /** How many times the reminder document has been written back. */
    var saves: nat

    /** Every stored time passed the validation of `/set_reminder`. */
    ghost predicate Valid()
      reads this
    {
      forall u :: u in users ==> ParseTime(users[u]).Some?
    }

    constructor ()
      ensures Valid() && users == map[] && saves == 0
    {
      users := map[];
      saves := 0;
    }

    /**
     * `/set_reminder`: reject a malformed time without touching the document;
     * otherwise store the caller's string exactly as typed and save.
     */
    method SetReminder(userId: string, timeStr: string) returns (r: SetResult)
      requires Valid()
      modifies this
      ensures Valid()
      ensures ParseTime(timeStr).None? ==>
        r == InvalidTimeFormat && users == old(users) && saves == old(saves)
      ensures ParseTime(timeStr).Some? ==>
        r == ReminderSet && users == old(users)[userId := timeStr] && saves == old(saves) + 1
    {
      if ParseTime(timeStr).None? {
        return InvalidTimeFormat;
      }
      users := users[userId := timeStr];
      saves := saves + 1;
      r := ReminderSet;
    }

    /** `/remove_reminder`: delete the caller's entry and save, or report that there is none without saving. */
    method RemoveReminder(userId: string) returns (r: RemoveResult)
      requires Valid()
      modifies this
      ensures Valid()
      ensures userId in old(users) ==>
        r == ReminderRemoved && users == old(users) - {userId} && saves == old(saves) + 1
      ensures userId !in old(users) ==>
        r == NoReminderSet && users == old(users) && saves == old(saves)
    {
      if userId !in users {
        return NoReminderSet;
      }
      users := users - {userId};
      saves := saves + 1;
      r := ReminderRemoved;
    }

    /**
     * One run of `check_reminders` at instant `now`: walk the registry and
     * collect every user whose stored time equals the UTC+7 "HH:MM". The
     * registry is only read.
     */
    method Sweep(now: Instant) returns (recipients: set<string>)
      ensures forall u :: u in recipients <==> u in users && users[u] == LocalHHMM(now)
    {
      var current := LocalHHMM(now);
      recipients := {};
      var pending := users.Keys;
      while pending != {}
        invariant pending <= users.Keys
        invariant forall u :: u in recipients <==> u in users && u !in pending && users[u] == current
        decreases pending
      {
        var u :| u in pending;
        if users[u] == current {
          recipients := recipients + {u};
        }
        pending := pending - {u};
      }
    }
  }

  /** 00:30 UTC is 07:30 in UTC+7, and a minute later it is 07:31. */
  lemma HalfPastSevenLocal()
    ensures LocalHHMM(30 * 60 * MICROS_PER_SECOND) == FormatHHMM(7, 30)
    ensures LocalHHMM(31 * 60 * MICROS_PER_SECOND) == FormatHHMM(7, 31)
  {
    assert LocalMinuteOfDay(30 * 60 * MICROS_PER_SECOND) == 7 * 60 + 30;
    assert LocalMinuteOfDay(31 * 60 * MICROS_PER_SECOND) == 7 * 60 + 31;
    LocalHHMMAt(30 * 60 * MICROS_PER_SECOND, 7, 30);
    LocalHHMMAt(31 * 60 * MICROS_PER_SECOND, 7, 31);
  }

  /**
   * With `{"42": "07:30"}` registered, the sweep at 07:30 UTC+7 (00:30 UTC)
   * reminds user 42 once, and the sweep a minute later reminds nobody.
   */
  method SweepScenario() returns (atTime: set<string>, minuteLater: set<string>)
    ensures atTime == {"42"} && minuteLater == {}
  {
    var registry := new ReminderRegistry();
    assert "07:30" == FormatHHMM(7, 30);
    ParseFormatHHMM(7, 30);
    var outcome := registry.SetReminder("42", "07:30");
    assert registry.users == map["42" := "07:30"];
    var t := 30 * 60 * MICROS_PER_SECOND;
    var later := t + 60 * MICROS_PER_SECOND;
    HalfPastSevenLocal();
    assert FormatHHMM(7, 31)[4] != FormatHHMM(7, 30)[4];
    atTime := registry.Sweep(t);
    minuteLater := registry.Sweep(later);
  }
}
