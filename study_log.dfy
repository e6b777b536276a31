/**
 * The study-log document (`active_sessions`, `logs`, `progress`) and the
 * commands that read-modify-write it: `/study_start`, `/study_stop`,
 * `/progress_add`, `/progress_list` and `/study_summary`.
 *
 * Each command loads the whole document, changes it in place and writes the
 * whole document back. The model keeps the document in the fields of one
 * object and counts the writes in `saves`, so that "nothing was saved" can be
 * stated.
 */
module StudyLog {
  import opened Clock
  import opened Wrappers
  import opened Duration

  /** One finished session; appended once by `/study_stop` and never changed. */
  datatype LogEntry = LogEntry(
    userId: string,
    start: Instant,
    end: Instant,
    durationSeconds: int,
    durationHuman: string,
    savedAt: Instant)

  /** One progress note. */
  datatype ProgressEntry = ProgressEntry(userId: string, text: string, createdAt: Instant)

  datatype StartResult = AlreadyActive(since: Instant) | Started(start: Instant)

  datatype StopResult = NoActiveSession | Stopped(entry: LogEntry)

  /** What `/study_summary` shows: nothing for today, or the count, the total and the last five sessions. */
  datatype SummaryResult =
    | NoSessionsToday
    | Summary(count: nat, totalSeconds: int, totalHuman: string, recent: seq<LogEntry>)

  const SUMMARY_RECENT: nat := 5
  /** The `limit` of `/progress_list` when the caller gives none. */
  const DEFAULT_LIST_LIMIT: int := 10

  /** A log entry whose duration fields were computed from its own start and end. */
  ghost predicate WellFormed(e: LogEntry) {
    && e.durationSeconds == ElapsedSeconds(e.start, e.end)
    && e.durationHuman == DurationHms(e.durationSeconds)
  }

  class StudyStore {
    var activeSessions: map<string, Instant>
    var logs: seq<LogEntry>
    var progress: seq<ProgressEntry>
    /** How many times the whole document has been written back. */
    var saves: nat

    ghost predicate Valid()
      reads this
    {
      forall i :: 0 <= i < |logs| ==> WellFormed(logs[i])
    }

    /** The document a fresh installation starts from. */
    constructor ()
      ensures Valid()
      ensures activeSessions == map[] && logs == [] && progress == [] && saves == 0
    {
      activeSessions := map[];
      logs := [];
      progress := [];
      saves := 0;
    }

    /**
     * `/study_start`: refuse, reporting the running session, when the user has
     * one; otherwise record the start time and save.
     */
    method StudyStart(userId: string, now: Instant) returns (r: StartResult)
      requires Valid()
      modifies this
      ensures Valid()
      ensures logs == old(logs) && progress == old(progress)
      ensures userId in old(activeSessions) ==>
        && r == AlreadyActive(old(activeSessions)[userId])
        && activeSessions == old(activeSessions)
        && saves == old(saves)
      ensures userId !in old(activeSessions) ==>
        && r == Started(now)
        && activeSessions == old(activeSessions)[userId := now]
        && saves == old(saves) + 1
    {
      if userId in activeSessions {
        return AlreadyActive(activeSessions[userId]);
      }
      activeSessions := activeSessions[userId := now];
      saves := saves + 1;
      r := Started(now);
    }

    /**
     * `/study_stop`: refuse when the user has no running session; otherwise
     * remove it, append one log entry with the truncated elapsed seconds and
     * their human form, and save. `now` is the end time and `savedAt` the
     * second clock reading the handler takes for `saved_at`.
     */
    method StudyStop(userId: string, now: Instant, savedAt: Instant) returns (r: StopResult)
      requires Valid()
      modifies this
      ensures Valid()
      ensures progress == old(progress)
      ensures userId !in old(activeSessions) ==>
        && r == NoActiveSession
        && activeSessions == old(activeSessions)
        && logs == old(logs)
        && saves == old(saves)
      ensures userId in old(activeSessions) ==>
        && r.Stopped?
        && r.entry.userId == userId
        && r.entry.start == old(activeSessions)[userId]
        && r.entry.end == now
        && r.entry.durationSeconds == ElapsedSeconds(r.entry.start, now)
        && r.entry.durationHuman == DurationHms(r.entry.durationSeconds)
        && r.entry.savedAt == savedAt
        && activeSessions == old(activeSessions) - {userId}
        && logs == old(logs) + [r.entry]
        && saves == old(saves) + 1
    {
      if userId !in activeSessions {
        return NoActiveSession;
      }
      var start := activeSessions[userId];
      activeSessions := activeSessions - {userId};
      var seconds := ElapsedSeconds(start, now);
      var entry := LogEntry(userId, start, now, seconds, DurationHms(seconds), savedAt);
      logs := logs + [entry];
      saves := saves + 1;
      r := Stopped(entry);
    }

    /** `/progress_add`: append one note and save; any text is accepted. */
    method ProgressAdd(userId: string, text: string, now: Instant)
      requires Valid()
      modifies this
      ensures Valid()
      ensures progress == old(progress) + [ProgressEntry(userId, text, now)]
      ensures activeSessions == old(activeSessions) && logs == old(logs)
      ensures saves == old(saves) + 1
    {
      progress := progress + [ProgressEntry(userId, text, now)];
      saves := saves + 1;
    }
  }

  /** The notes of one user, in the order they were added. */
  function UserProgress(progress: seq<ProgressEntry>, userId: string): (items: seq<ProgressEntry>)
    ensures |items| <= |progress|
    ensures forall k :: 0 <= k < |items| ==> items[k].userId == userId
  {
    if |progress| == 0 then []
    else
      var last := progress[|progress| - 1];
      UserProgress(progress[..|progress| - 1], userId) + (if last.userId == userId then [last] else [])
  }

  /** A user's notes are exactly the notes that user added. */
  lemma {:induction false} UserProgressMembers(progress: seq<ProgressEntry>, userId: string, e: ProgressEntry)
    ensures e in UserProgress(progress, userId) <==> e in progress && e.userId == userId
    decreases |progress|
  {
    if |progress| > 0 {
      var init := progress[..|progress| - 1];
      UserProgressMembers(init, userId, e);
      assert progress == init + [progress[|progress| - 1]];
    }
  }

  /** Python's `items[start:]` for any integer `start`, negative ones counting from the end. */
  function SliceFrom<T>(items: seq<T>, start: int): (tail: seq<T>)
    ensures |tail| <= |items| && tail == items[|items| - |tail|..]
    ensures start >= 0 ==> |tail| == |items| - Min(start, |items|)
    ensures start < 0 ==> |tail| == Min(-start, |items|)
  {
    var n := |items|;
    var k := if start < 0 then (if start + n < 0 then 0 else start + n) else (if start > n then n else start);
    items[k..]
  }

  function Min(a: int, b: int): int {
    if a <= b then a else b
  }

  /**
   * `/progress_list`: the user's notes sliced as `items[-limit:]`. A positive
   * limit keeps the last `limit` notes (all of them when there are fewer),
   * zero keeps every note, and a negative limit drops the first `-limit`.
   */
  function ProgressList(progress: seq<ProgressEntry>, userId: string, limit: int): (r: seq<ProgressEntry>)
    ensures var items := UserProgress(progress, userId);
      && (limit >= 1 ==> |r| == Min(limit, |items|) && r == items[|items| - |r|..])
      && (limit == 0 ==> r == items)
      && (limit < 0 ==> r == items[Min(-limit, |items|)..])
  {
    SliceFrom(UserProgress(progress, userId), -limit)
  }

  function Reversed<T>(items: seq<T>): (r: seq<T>)
    ensures |r| == |items|
    ensures forall k :: 0 <= k < |items| ==> r[k] == items[|items| - 1 - k]
  {
    if |items| == 0 then [] else [items[|items| - 1]] + Reversed(items[..|items| - 1])
  }

  /**
   * The notes `/progress_list` shows, top to bottom: the window of
   * `ProgressList`, newest first.
   */
  function ProgressListShown(progress: seq<ProgressEntry>, userId: string, limit: int): (shown: seq<ProgressEntry>)
    ensures var window := ProgressList(progress, userId, limit);
      |shown| == |window| && forall k :: 0 <= k < |shown| ==> shown[k] == window[|window| - 1 - k]
  {
    Reversed(ProgressList(progress, userId, limit))
  }

  /**
   * Without a `limit` argument `/progress_list` shows at most ten notes, and
   * the first one shown is the user's latest note.
   */
  lemma DefaultListShowsLatestFirst(progress: seq<ProgressEntry>, userId: string)
    ensures var items := UserProgress(progress, userId);
      var shown := ProgressListShown(progress, userId, DEFAULT_LIST_LIMIT);
      && |shown| == Min(10, |items|)
      && (|items| > 0 ==> shown[0] == items[|items| - 1])
  {
  }

  /** Right after `/progress_add`, the author's list shows the new note first, for any positive limit. */
  lemma ProgressAddShownFirst(progress: seq<ProgressEntry>, e: ProgressEntry, limit: int)
    requires limit >= 1
    ensures var shown := ProgressListShown(progress + [e], e.userId, limit);
      |shown| >= 1 && shown[0] == e
  {
    ProgressAddThenList(progress, e, limit);
  }

  /** The user's log entries saved on a given UTC day, in log order. */
  function TodaysLogs(logs: seq<LogEntry>, userId: string, day: int): (entries: seq<LogEntry>)
    ensures |entries| <= |logs|
    ensures forall k :: 0 <= k < |entries| ==> entries[k].userId == userId && UtcDay(entries[k].savedAt) == day
  {
    if |logs| == 0 then []
    else
      var last := logs[|logs| - 1];
      TodaysLogs(logs[..|logs| - 1], userId, day)
        + (if last.userId == userId && UtcDay(last.savedAt) == day then [last] else [])
  }

  /** Today's entries of a user are exactly that user's entries saved today. */
  lemma {:induction false} TodaysLogsMembers(logs: seq<LogEntry>, userId: string, day: int, e: LogEntry)
    ensures e in TodaysLogs(logs, userId, day) <==> e in logs && e.userId == userId && UtcDay(e.savedAt) == day
    decreases |logs|
  {
    if |logs| > 0 {
      var init := logs[..|logs| - 1];
      TodaysLogsMembers(init, userId, day, e);
      assert logs == init + [logs[|logs| - 1]];
    }
  }

  /** `sum(l["duration_seconds"] for l in entries)`. */
  function TotalSeconds(entries: seq<LogEntry>): (total: int)
    ensures |entries| == 0 ==> total == 0
    ensures (forall k :: 0 <= k < |entries| ==> entries[k].durationSeconds >= 0) ==> total >= 0
  {
    if |entries| == 0 then 0 else TotalSeconds(entries[..|entries| - 1]) + entries[|entries| - 1].durationSeconds
  }

  /**
   * `/study_summary` at instant `now`: the user's sessions whose `saved_at`
   * falls on today's UTC date, their number, their total and its human form,
   * and the last five of them.
   */
  function StudySummary(logs: seq<LogEntry>, userId: string, now: Instant): (r: SummaryResult)
    ensures var today := TodaysLogs(logs, userId, UtcDay(now));
      && (r.NoSessionsToday? <==> today == [])
      && (r.Summary? ==>
        && r.count == |today|
        && r.totalSeconds == TotalSeconds(today)
        && r.totalHuman == DurationHms(r.totalSeconds)
        && |r.recent| == Min(SUMMARY_RECENT, |today|)
        && r.recent == today[|today| - |r.recent|..])
  {
    var today := TodaysLogs(logs, userId, UtcDay(now));
    if today == [] then NoSessionsToday
    else
      var total := TotalSeconds(today);
      Summary(|today|, total, DurationHms(total), SliceFrom(today, -(SUMMARY_RECENT as int)))
  }

  lemma UserProgressAppend(progress: seq<ProgressEntry>, e: ProgressEntry, userId: string)
    ensures UserProgress(progress + [e], userId)
      == UserProgress(progress, userId) + (if e.userId == userId then [e] else [])
  {
    assert (progress + [e])[..|progress|] == progress;
  }

  /**
   * After `/progress_add` the new note is the newest one `/progress_list`
   * shows its author for any positive limit, the notes listed before it are
   * the author's earlier ones, and every other user's list is unchanged.
   */
  lemma ProgressAddThenList(progress: seq<ProgressEntry>, e: ProgressEntry, limit: int)
    requires limit >= 1
    ensures var before := ProgressList(progress, e.userId, limit - 1);
      var after := ProgressList(progress + [e], e.userId, limit);
      && after == (if limit == 1 then [] else before) + [e]
    ensures forall other: string :: other != e.userId ==>
      ProgressList(progress + [e], other, limit) == ProgressList(progress, other, limit)
  {
    UserProgressAppend(progress, e, e.userId);
    var items := UserProgress(progress, e.userId);
    var items' := items + [e];
    var after := ProgressList(progress + [e], e.userId, limit);
    assert |after| == Min(limit, |items| + 1);
    if limit > 1 {
      var before := ProgressList(progress, e.userId, limit - 1);
      assert after == items'[|items'| - |after|..];
      assert before == items[|items| - |before|..];
      assert items'[|items'| - |after|..] == items[|items| - |before|..] + [e];
    } else {
      assert after == [e];
    }
    forall other: string | other != e.userId
      ensures ProgressList(progress + [e], other, limit) == ProgressList(progress, other, limit)
    {
      UserProgressAppend(progress, e, other);
    }
  }

  lemma TodaysLogsAppend(logs: seq<LogEntry>, e: LogEntry, userId: string, day: int)
    ensures TodaysLogs(logs + [e], userId, day)
      == TodaysLogs(logs, userId, day) + (if e.userId == userId && UtcDay(e.savedAt) == day then [e] else [])
  {
    assert (logs + [e])[..|logs|] == logs;
  }

  lemma TotalSecondsAppend(entries: seq<LogEntry>, e: LogEntry)
    ensures TotalSeconds(entries + [e]) == TotalSeconds(entries) + e.durationSeconds
  {
    assert (entries + [e])[..|entries|] == entries;
  }

  /**
   * A session stopped with `saved_at` on the day `now` falls in is counted by
   * that day's `/study_summary` for its user: one more session, its seconds
   * added to the total, and it is the newest one listed.
   */
  lemma StopCountsInSummary(logs: seq<LogEntry>, e: LogEntry, now: Instant)
    requires UtcDay(e.savedAt) == UtcDay(now)
    ensures var after := StudySummary(logs + [e], e.userId, now);
      var before := StudySummary(logs, e.userId, now);
      && after.Summary?
      && after.count == (if before.Summary? then before.count else 0) + 1
      && after.totalSeconds == (if before.Summary? then before.totalSeconds else 0) + e.durationSeconds
      && after.recent[|after.recent| - 1] == e
  {
    var day := UtcDay(now);
    var today := TodaysLogs(logs, e.userId, day);
    TodaysLogsAppend(logs, e, e.userId, day);
    TotalSecondsAppend(today, e);
    assert TodaysLogs(logs + [e], e.userId, day) == today + [e];
    assert today == [] ==> TotalSeconds(today) == 0;
  }

  /** Appending a session leaves every other user's summary as it was. */
  lemma StopLeavesOtherSummaries(logs: seq<LogEntry>, e: LogEntry, other: string, now: Instant)
    requires other != e.userId
    ensures StudySummary(logs + [e], other, now) == StudySummary(logs, other, now)
  {
    TodaysLogsAppend(logs, e, other, UtcDay(now));
    assert TodaysLogs(logs + [e], other, UtcDay(now)) == TodaysLogs(logs, other, UtcDay(now));
  }

  /** Whether log entry `i` is one of `userId`'s sessions saved on `day`. */
  ghost predicate CountsOn(logs: seq<LogEntry>, i: int, userId: string, day: int)
    requires 0 <= i < |logs|
  {
    logs[i].userId == userId && UtcDay(logs[i].savedAt) == day
  }

  ghost function MatchingIndices(logs: seq<LogEntry>, userId: string, day: int, n: nat): set<nat>
    requires n <= |logs|
  {
    set i: nat | i < n && CountsOn(logs, i, userId, day)
  }

  lemma TodaysLogsPrefixStep(logs: seq<LogEntry>, userId: string, day: int, n: nat)
    requires 0 < n <= |logs|
    ensures |TodaysLogs(logs[..n], userId, day)|
      == |TodaysLogs(logs[..n - 1], userId, day)| + (if CountsOn(logs, n - 1, userId, day) then 1 else 0)
  {
    var prefix := logs[..n];
    assert prefix[..n - 1] == logs[..n - 1];
    assert prefix[n - 1] == logs[n - 1];
  }

  lemma MatchingIndicesStep(logs: seq<LogEntry>, userId: string, day: int, n: nat)
    requires 0 < n <= |logs|
    ensures |MatchingIndices(logs, userId, day, n)|
      == |MatchingIndices(logs, userId, day, n - 1)| + (if CountsOn(logs, n - 1, userId, day) then 1 else 0)
  {
    var smaller := MatchingIndices(logs, userId, day, n - 1);
    var added: set<nat> := if CountsOn(logs, n - 1, userId, day) then {n - 1} else {};
    assert MatchingIndices(logs, userId, day, n) == smaller + added;
    assert (n - 1) !in smaller;
    assert |smaller + added| == |smaller| + |added|;
  }

  lemma {:induction false} TodaysLogsCountsIndices(logs: seq<LogEntry>, userId: string, day: int, n: nat)
    requires n <= |logs|
    ensures |TodaysLogs(logs[..n], userId, day)| == |MatchingIndices(logs, userId, day, n)|
    decreases n
  {
    if n > 0 {
      TodaysLogsCountsIndices(logs, userId, day, n - 1);
      TodaysLogsPrefixStep(logs, userId, day, n);
      MatchingIndicesStep(logs, userId, day, n);
    }
  }

  /** The session count of `/study_summary` is the number of positions in the log holding one of today's sessions of that user. */
  lemma SummaryCountIsMatchingEntries(logs: seq<LogEntry>, userId: string, now: Instant)
    ensures var r := StudySummary(logs, userId, now);
      (if r.Summary? then r.count else 0) == |MatchingIndices(logs, userId, UtcDay(now), |logs|)|
  {
    TodaysLogsCountsIndices(logs, userId, UtcDay(now), |logs|);
    assert logs[..|logs|] == logs;
  }

  /** In a consistent log every human duration reads back as the entry's number of seconds. */
  lemma LoggedDurationsReadBack(logs: seq<LogEntry>)
    requires forall i :: 0 <= i < |logs| ==> WellFormed(logs[i])
    ensures forall i :: 0 <= i < |logs| ==> ParseDuration(logs[i].durationHuman) == Some(logs[i].durationSeconds)
  {
    forall i | 0 <= i < |logs|
      ensures ParseDuration(logs[i].durationHuman) == Some(logs[i].durationSeconds)
    {
      ParseDurationHms(logs[i].durationSeconds);
    }
  }

  /**
   * A session started at 2024-01-01T00:00:00Z and stopped at 00:01:05Z is
   * logged as 65 seconds, "1m 5s"; a second start in between is refused and
   * keeps the first start time.
   */
  method StartStopScenario() returns (entry: LogEntry)
    ensures entry.start == 1_704_067_200 * MICROS_PER_SECOND
    ensures entry.durationSeconds == 65 && entry.durationHuman == "1m 5s"
  {
    var store := new StudyStore();
    var t0 := 1_704_067_200 * MICROS_PER_SECOND;
    var first := store.StudyStart("A", t0);
    var again := store.StudyStart("A", t0 + 10 * MICROS_PER_SECOND);
    assert again == AlreadyActive(t0);
    var t1 := t0 + 65 * MICROS_PER_SECOND;
    var stopped := store.StudyStop("A", t1, t1);
    entry := stopped.entry;
    MinutesExamples();
  }
}
