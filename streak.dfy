/**
 * The "lastDate" streak of the daily quiz (src/routes/index.tsx, updateStreak
 * and getStreak). Browser storage holds one optional timestamp under the key
 * "lastDate"; time is integer milliseconds since the epoch, and writing an
 * ISO string and parsing it back is taken to round-trip the milliseconds.
 */
module Streak {
  import opened Wrappers

  /** Milliseconds in one day: 1000 * 60 * 60 * 24. */
  const DayMs: int := 1000 * 60 * 60 * 24

  /**
   * The "lastDate" value that updateStreak leaves behind when it runs at
   * instant `now` over the stored value `last`. The contract determines the
   * result: only `now` is ever written, it is written when the key is absent
   * or stale by more than one day, and afterwards the stored instant is never
   * more than one day behind `now`.
   */
  function Recorded(last: Option<int>, now: int): (r: Option<int>)
    ensures r.Some?
    ensures r == last || r == Some(now)
    ensures now - r.value <= DayMs
    ensures last.Some? && now - last.value <= DayMs ==> r == last
  {
    match last
    case None => Some(now)
    case Some(t) =>
      // diffInDays > 1 with diffInDays = diffInMs / DayMs is diffInMs > DayMs
      if now - t > DayMs then Some(now) else last
  }

  /**
   * getStreak: 1 when nothing is stored, otherwise the whole number of days
   * elapsed since the stored instant, rounded down, plus one. Dafny's `/` with
   * a positive divisor rounds down, as Math.floor does.
   */
  function GetStreak(last: Option<int>, now: int): (r: int)
    ensures last.None? ==> r == 1
    ensures last.Some? ==> (r - 1) * DayMs <= now - last.value < r * DayMs
    ensures last.Some? && last.value <= now ==> r >= 1
  {
    match last
    case None => 1
    case Some(t) => (now - t) / DayMs + 1
  }

  /** The browser storage that holds the "lastDate" key. */
  class Store {
    var lastDate: Option<int>

    constructor (initial: Option<int>)
      ensures lastDate == initial
    {
      lastDate := initial;
    }

    /** updateStreak, run at instant `now`. */
    method UpdateStreak(now: int)
      modifies this
      ensures old(lastDate).None? ==> lastDate == Some(now)
      ensures old(lastDate).Some? && now - old(lastDate).value > DayMs ==> lastDate == Some(now)
      ensures old(lastDate).Some? && now - old(lastDate).value <= DayMs ==> lastDate == old(lastDate)
      ensures lastDate == Recorded(old(lastDate), now)
    {
      if lastDate.None? {
        lastDate := Some(now);
        return;
      }
      var diffInMs := now - lastDate.value;
      if diffInMs > DayMs {
        lastDate := Some(now);
      }
    }
  }

  /** A second update at the same instant changes nothing. */
  lemma UpdateIdempotent(last: Option<int>, now: int)
    ensures Recorded(Recorded(last, now), now) == Recorded(last, now)
  {
  }

  /**
   * Read right after an update at the same instant, with a clock that has not
   * gone back, the streak is 1 or 2, and it is 2 exactly when the stored
   * instant was one whole day (86400000 ms) earlier.
   */
  lemma StreakAfterUpdate(last: Option<int>, now: int)
    requires last.None? || last.value <= now
    ensures GetStreak(Recorded(last, now), now) in {1, 2}
    ensures GetStreak(Recorded(last, now), now) == 2 <==> last.Some? && now - last.value == DayMs
  {
  }

  /** With no stored instant the streak is 1, before and after an update. */
  lemma FirstPlayStreak(now: int)
    ensures GetStreak(None, now) == 1
    ensures GetStreak(Recorded(None, now), now) == 1
  {
  }

  /**
   * When the clock reads earlier than the stored instant, nothing is written
   * and the streak shown is 0 or less.
   */
  lemma StreakWithClockBehind(last: Option<int>, now: int)
    requires last.Some? && now < last.value
    ensures Recorded(last, now) == last
    ensures GetStreak(Recorded(last, now), now) <= 0
  {
  }

  /** Read later without a new update, the streak never drops. */
  lemma StreakGrowsWithTime(last: Option<int>, t1: int, t2: int)
    requires t1 <= t2
    ensures GetStreak(last, t1) <= GetStreak(last, t2)
  {
  }
}
