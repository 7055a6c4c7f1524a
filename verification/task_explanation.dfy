/** The human-readable reasons attached to focus tasks and stagnant tasks. Day counts are
    differences of calendar days (`ChronoUnit.DAYS.between` on `toLocalDate()`), and `%d`
    prints an integer in decimal with a leading '-' when negative. */
module TaskExplanation {
  import opened Wrappers
  import opened Domain
  import opened Text
  import TaskSpecification

  /** Calendar days from `from` to `to`. */
  function DaysBetween(from: Time, to: Time): int {
    DayOf(to) - DayOf(from)
  }

  /** Shifting a time by whole days shifts its calendar day by the same amount. */
  lemma DayShift(t: Time, n: int)
    ensures DayOf(t + n * MillisPerDay) == DayOf(t) + n
  {
    var q, r := t / MillisPerDay, t % MillisPerDay;
    assert t == q * MillisPerDay + r && 0 <= r < MillisPerDay;
    assert t + n * MillisPerDay == (q + n) * MillisPerDay + r;
  }

  // ---------------------------------------------------------------------------
  // Focus explanations
  // ---------------------------------------------------------------------------

  const NoDueDateText := "High priority task " + "requiring immediate attention"
  const DueTodayText := "Due today and high priority"
  const OverduePrefix := "Overdue by "
  const OverdueSuffix := " days and high priority"
  const SoonPrefix := "Due soon (in "
  const SoonSuffix := " days) and high priority"

  /** The text for a task `d` calendar days before its due day (`d < 0`: overdue), or for a
      task without a due date. */
  function FocusText(d: Option<int>): string {
    match d
    case None => NoDueDateText
    case Some(days) =>
      if days < 0 then OverduePrefix + NatToString(-days) + OverdueSuffix
      else if days == 0 then DueTodayText
      else SoonPrefix + NatToString(days) + SoonSuffix
  }

  /** `generateFocusExplanation`: the text says which case applies, and the number it
      prints reads back as the calendar days overdue or left. */
  function FocusExplanation(t: Task, now: Time): (s: string)
    ensures t.dueDate.None? <==> s == NoDueDateText
    ensures t.dueDate.Some? ==> (s == DueTodayText <==> DayOf(t.dueDate.value) == DayOf(now))
    ensures t.dueDate.Some? && DayOf(t.dueDate.value) < DayOf(now) ==>
              && StartsWith(s, OverduePrefix) && EndsWith(s, OverdueSuffix)
              && |OverduePrefix| + |OverdueSuffix| <= |s|
              && Middle(s, OverduePrefix, OverdueSuffix) == NatToString(DayOf(now) - DayOf(t.dueDate.value))
              && IsDigits(Middle(s, OverduePrefix, OverdueSuffix))
              && ParseDigits(Middle(s, OverduePrefix, OverdueSuffix)) == DayOf(now) - DayOf(t.dueDate.value)
    ensures t.dueDate.Some? && DayOf(t.dueDate.value) > DayOf(now) ==>
              && StartsWith(s, SoonPrefix) && EndsWith(s, SoonSuffix)
              && |SoonPrefix| + |SoonSuffix| <= |s|
              && Middle(s, SoonPrefix, SoonSuffix) == NatToString(DayOf(t.dueDate.value) - DayOf(now))
              && IsDigits(Middle(s, SoonPrefix, SoonSuffix))
              && ParseDigits(Middle(s, SoonPrefix, SoonSuffix)) == DayOf(t.dueDate.value) - DayOf(now)
  {
    var d := if t.dueDate.Some? then Some(DaysBetween(now, t.dueDate.value)) else None;
    FocusTextInjective(d, None);
    FocusTextInjective(d, Some(0));
    if d.Some? && d.value < 0 then
      Framed(OverduePrefix, NatToString(-d.value), OverdueSuffix);
      ParseNatToString(-d.value);
      FocusText(d)
    else if d.Some? && d.value > 0 then
      Framed(SoonPrefix, NatToString(d.value), SoonSuffix);
      ParseNatToString(d.value);
      FocusText(d)
    else
      FocusText(d)
  }

  /** Equal surroundings: `a + x + b` and `a + y + b` are equal exactly when `x` and `y` are. */
  lemma StripAround(a: string, x: string, y: string, b: string)
    ensures a + x + b == a + y + b <==> x == y
  {
    if a + x + b == a + y + b {
      assert |x| == |y|;
      assert x == (a + x + b)[|a|..|a| + |x|];
      assert y == (a + y + b)[|a|..|a| + |y|];
    }
  }

  /** The letters that tell the four shapes of focus text apart: the first letter, and for
      the "Due ..." texts the fifth. */
  lemma FocusTextShape(d: Option<int>)
    ensures |FocusText(d)| > 4
    ensures FocusText(d)[0] == (if d.None? then 'H' else if d.value < 0 then 'O' else 'D')
    ensures d.Some? && d.value >= 0 ==> FocusText(d)[4] == (if d.value == 0 then 't' else 's')
  {
    var s := FocusText(d);
    if d.None? {
      assert s == NoDueDateText;
    } else if d.value < 0 {
      assert s == OverduePrefix + NatToString(-d.value) + OverdueSuffix;
    } else if d.value == 0 {
      assert s == DueTodayText;
    } else {
      assert s == SoonPrefix + NatToString(d.value) + SoonSuffix;
    }
  }

  /** The focus text determines the day difference: different differences (or a due date
      against none) never produce the same text. */
  lemma FocusTextInjective(d1: Option<int>, d2: Option<int>)
    ensures FocusText(d1) == FocusText(d2) <==> d1 == d2
  {
    if d1 != d2 {
      if d1.Some? && d2.Some? && d1.value < 0 && d2.value < 0 {
        SameShapeDiffers(OverduePrefix, -d1.value, -d2.value, OverdueSuffix);
      } else if d1.Some? && d2.Some? && d1.value > 0 && d2.value > 0 {
        SameShapeDiffers(SoonPrefix, d1.value, d2.value, SoonSuffix);
      } else {
        FocusTextShape(d1);
        FocusTextShape(d2);
      }
    }
  }

  /** Two texts of one shape with different numbers differ. */
  lemma SameShapeDiffers(a: string, m: nat, n: nat, b: string)
    requires m != n
    ensures a + NatToString(m) + b != a + NatToString(n) + b
  {
    StripAround(a, NatToString(m), NatToString(n), b);
    NatToStringInjective(m, n);
  }

  /** The worked examples: three days overdue, due today, due in two days. */
  lemma FocusExamples(t: Task, now: Time)
    ensures FocusExplanation(t.(dueDate := Some(now - 3 * MillisPerDay)), now) == "Overdue by " + "3" + " days and high priority"
    ensures FocusExplanation(t.(dueDate := Some(now)), now) == "Due today and high priority"
    ensures FocusExplanation(t.(dueDate := Some(now + 2 * MillisPerDay)), now) == "Due soon (in " + "2" + " days) and high priority"
  {
    DayShift(now, -3);
    DayShift(now, 2);
  }

  // ---------------------------------------------------------------------------
  // Stagnant explanations
  // ---------------------------------------------------------------------------

  /** Which of the four stagnant messages applies. */
  datatype StagnantReason = OverdueIdle | StillInProgress | PendingIdle | Idle

  /** Overdue (due strictly before now, full time) wins over the status; then in progress,
      then pending; anything else gets the generic message. */
  function ReasonFor(t: Task, now: Time): (r: StagnantReason)
    ensures r == OverdueIdle <==> t.dueDate.Some? && t.dueDate.value < now
    ensures r == StillInProgress <==> !(t.dueDate.Some? && t.dueDate.value < now) && t.status == Some(IN_PROGRESS)
    ensures r == PendingIdle <==> !(t.dueDate.Some? && t.dueDate.value < now) && t.status == Some(PENDING)
  {
    if t.dueDate.Some? && t.dueDate.value < now then OverdueIdle
    else if t.status == Some(IN_PROGRESS) then StillInProgress
    else if t.status == Some(PENDING) then PendingIdle
    else Idle
  }

  /** The text before the day count in each message. */
  function StagnantPrefix(reason: StagnantReason): string {
    match reason
    case OverdueIdle => "Overdue and inactive for "
    case StillInProgress => "Inactive for "
    case PendingIdle => "Pending for "
    case Idle => "Inactive for "
  }

  /** The text after the day count in each message. */
  function StagnantSuffix(reason: StagnantReason): string {
    match reason
    case OverdueIdle => " days"
    case StillInProgress => " days while still IN_PROGRESS"
    case PendingIdle => " days with no recent updates"
    case Idle => " days with no recent updates"
  }

  function StagnantText(reason: StagnantReason, inactiveDays: int): string {
    StagnantPrefix(reason) + IntToString(inactiveDays) + StagnantSuffix(reason)
  }

  /** `generateStagnantExplanation`: the message for the task's reason, and a day count
      that reads back as the calendar days from its last modification to now. */
  function StagnantExplanation(t: Task, now: Time): (s: string)
    ensures var reason := ReasonFor(t, now);
      && StartsWith(s, StagnantPrefix(reason)) && EndsWith(s, StagnantSuffix(reason))
      && |StagnantPrefix(reason)| + |StagnantSuffix(reason)| <= |s|
      && Middle(s, StagnantPrefix(reason), StagnantSuffix(reason)) == IntToString(DaysBetween(t.lastModifiedAt, now))
      && IsIntText(Middle(s, StagnantPrefix(reason), StagnantSuffix(reason)))
      && ParseInt(Middle(s, StagnantPrefix(reason), StagnantSuffix(reason))) == DaysBetween(t.lastModifiedAt, now)
  {
    var reason, days := ReasonFor(t, now), DaysBetween(t.lastModifiedAt, now);
    Framed(StagnantPrefix(reason), IntToString(days), StagnantSuffix(reason));
    ParseIntToString(days);
    StagnantText(reason, days)
  }

  /** Every task the stagnant query selects gets one of the three specific messages: the
      generic one is left for tasks the query would not select. */
  lemma StagnantTasksGetSpecificReason(now: Time, od: Time, ip: Time, pd: Time, t: Task)
    requires TaskSpecification.IsStagnant(now, od, ip, pd, t)
    ensures ReasonFor(t, now) != Idle
  {
  }

  /** Worked example: in progress and untouched for five days. */
  lemma InProgressExample(t: Task, now: Time)
    requires t.status == Some(IN_PROGRESS) && t.dueDate.None? && t.lastModifiedAt == now - 5 * MillisPerDay
    ensures StagnantExplanation(t, now) == "Inactive for " + "5" + " days while still IN_PROGRESS"
  {
    DayShift(now, -5);
    assert DaysBetween(t.lastModifiedAt, now) == 5;
  }

  /** Worked example: pending and untouched for ten days. */
  lemma PendingExample(t: Task, now: Time)
    requires t.status == Some(PENDING) && t.dueDate.None? && t.lastModifiedAt == now - 10 * MillisPerDay
    ensures StagnantExplanation(t, now) == "Pending for " + "10" + " days with no recent updates"
  {
    DayShift(now, -10);
    assert DaysBetween(t.lastModifiedAt, now) == 10;
    assert ReasonFor(t, now) == PendingIdle;
    assert NatToString(1) == "1" && NatToString(0) == "0";
    assert IntToString(10) == NatToString(1) + [DigitChar(0)] == "10";
  }

  /** Worked example: no status, due a day ago, untouched for three days. */
  lemma OverdueExample(t: Task, now: Time)
    requires t.status.None? && t.dueDate == Some(now - MillisPerDay) && t.lastModifiedAt == now - 3 * MillisPerDay
    ensures StagnantExplanation(t, now) == "Overdue and inactive for " + "3" + " days"
  {
    DayShift(now, -3);
    assert DaysBetween(t.lastModifiedAt, now) == 3;
  }
}
