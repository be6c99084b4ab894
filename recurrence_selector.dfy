/** The rule editor: how each control of the recurrence selector turns the
    current rule into the rule it hands on. "Today" is a parameter. */
module RecurrenceSelector {
  import opened Common
  import opened CalendarDate
  import opened Types
  import opened JsBuiltins
  import opened Recurrence

  // ===== Pattern and interval =====

  /** handlePatternChange: a fresh rule with interval 1; weekly rules start
      on today's weekday. Nothing of the old rule is kept (no end date, no
      day-of-month), and the result is a rule the engine can expand. */
  function PatternChange(pattern: Pattern, today: Date): (r: RecurrenceRule)
    ensures WellFormed(r) && r.pattern == pattern && r.interval == 1
    ensures r.endDate.None? && r.dayOfMonth.None?
    ensures r.daysOfWeek.Some? <==> pattern == Weekly
    ensures pattern == Weekly ==> r.daysOfWeek.value == [Weekday(today)]
  {
    RecurrenceRule(pattern, 1, None, if pattern == Weekly then Some([Weekday(today)]) else None, None)
  }

  /** The interval input: `parseInt(text) || 1`, so NaN and 0 become 1. The
      value is never 0: it is the parsed number or the fallback 1. */
  function IntervalInput(text: string): (n: int)
    ensures n != 0
    ensures n == 1 || ParseInt(text) == Some(n)
    ensures ParseInt(text).Some? && ParseInt(text).value != 0 ==> n == ParseInt(text).value
    ensures ParseInt(text).None? || ParseInt(text) == Some(0) ==> n == 1
  {
    match ParseInt(text)
    case None => 1
    case Some(v) => if v == 0 then 1 else v
  }

  /** handleIntervalChange: the interval is replaced and nothing else. */
  function IntervalChange(rule: RecurrenceRule, interval: int): (r: RecurrenceRule)
    ensures r.interval == interval && r.(interval := rule.interval) == rule
  {
    rule.(interval := interval)
  }

  // ===== Weekday set =====

  /** `filter((d) => d !== day)`: exactly the elements other than day. */
  function Without(xs: seq<int>, day: int): (r: seq<int>)
    ensures |r| <= |xs|
    ensures forall x :: x in r <==> x in xs && x != day
  {
    if xs == [] then []
    else
      assert xs == [xs[0]] + xs[1..];
      (if xs[0] == day then [] else [xs[0]]) + Without(xs[1..], day)
  }

  function SelectedDays(rule: RecurrenceRule): seq<int> {
    if rule.daysOfWeek.Some? then rule.daysOfWeek.value else []
  }

  /** handleDaysOfWeekChange: remove a selected day, or add an unselected
      one and sort; None when the result would be empty, for then the
      handler hands nothing on. */
  function DaysOfWeekToggle(rule: RecurrenceRule, day: int): (r: Option<RecurrenceRule>)
    ensures r.Some? ==> r.value.daysOfWeek.Some? && |r.value.daysOfWeek.value| > 0
                        && r.value.(daysOfWeek := rule.daysOfWeek) == rule
    ensures r.None? <==> day in SelectedDays(rule) && forall x :: x in SelectedDays(rule) ==> x == day
  {
    var current := SelectedDays(rule);
    var newDays := if day in current then Without(current, day) else JsSort(current + [day]);
    assert newDays != [] ==> newDays[0] in newDays;
    if |newDays| > 0 then Some(rule.(daysOfWeek := Some(newDays))) else None
  }

  // ===== End date =====

  /** handleEndDateChange: the end date alone changes; the empty text clears
      it, and the engine then reads no end bound. */
  function EndDateChange(rule: RecurrenceRule, text: string): (r: RecurrenceRule)
    ensures r.(endDate := rule.endDate) == rule
    ensures r.endDate.None? <==> text == ""
    ensures text != "" ==> r.endDate == Some(text)
    ensures text == "" ==> EndBoundOf(r) == NoEnd
  {
    rule.(endDate := if text == "" then None else Some(text))
  }

  // ----- Lemmas -----

  /** A fresh weekly rule steps from today to the same weekday a week later. */
  lemma WeeklyPatternStepsAWeek(today: Date)
    ensures NextOccurrence(today, PatternChange(Weekly, today)) == AddDays(today, 7)
  {
    var r := PatternChange(Weekly, today);
    assert r.pattern == Weekly && r.interval == 1 && r.daysOfWeek == Some([Weekday(today)]);
    SameWeekdayWithinAWeek(today, NextOccurrence(today, r));
  }

  /** The only date in the week after d on d's weekday is seven days on. */
  lemma SameWeekdayWithinAWeek(d: Date, n: Date)
    requires DayNumber(d) < DayNumber(n) <= DayNumber(d) + 7
    requires Weekday(n) in [Weekday(d)] || DayNumber(n) == DayNumber(d) + 7
    ensures n == AddDays(d, 7)
  {
    if Weekday(n) == Weekday(d) {
      FullWeek(DayNumber(d) + 6, DayNumber(n) + 6);
    }
    SameDayIsEqual(AddDays(d, 7), n);
  }

  /** Two numbers at most a week apart with the same remainder mod 7 are a
      week apart. */
  lemma FullWeek(a: int, b: int)
    requires a < b <= a + 7 && a % 7 == b % 7
    ensures b == a + 7
  {
    var k := b - a;
    assert b == a + k;
    ModSevenAdd(a, k);
  }

  /** The interval input never yields 0: digits give their value, 0 and
      text without digits give 1, and negative numbers pass through. */
  lemma IntervalInputValues(n: nat, rest: string)
    requires rest == [] || !IsDigit(rest[0])
    ensures IntervalInput(NatToString(n) + rest) == if n == 0 then 1 else n
    ensures n > 0 ==> IntervalInput("-" + (NatToString(n) + rest)) == -(n as int)
    ensures IntervalInput("") == 1
  {
    ParseIntReadsLeadingDigits(n, rest);
  }

  /** On weekday numbers the text order is numeric order, so the sorted
      weekdays are ascending. */
  lemma JsSortWeekdaysAscending(xs: seq<int>)
    requires forall x :: x in xs ==> 0 <= x <= 6
    ensures multiset(JsSort(xs)) == multiset(xs)
    ensures forall i :: 0 < i < |JsSort(xs)| ==> JsSort(xs)[i - 1] <= JsSort(xs)[i]
  {
    var r := JsSort(xs);
    NumberTextLeIsTotalOrder();
    SortBySorts(xs, NumberTextLe);
    forall i | 0 < i < |r|
      ensures r[i - 1] <= r[i]
    {
      var a, b := r[i - 1], r[i];
      assert a in multiset(xs) && b in multiset(xs);
      assert a in xs && b in xs;
      assert NumberTextLe(a, b);
      SingleDigitOrder(a, b);
    }
  }

  /** Toggling a selected day removes it (every copy of it) and keeps
      every other selected day; the handler hands on nothing when that
      leaves no day. */
  lemma ToggleSelectedDayRemoves(rule: RecurrenceRule, day: int)
    requires day in SelectedDays(rule)
    ensures var r := DaysOfWeekToggle(rule, day);
      && (r.None? <==> forall x :: x in SelectedDays(rule) ==> x == day)
      && (r.Some? ==> r.value.daysOfWeek == Some(Without(SelectedDays(rule), day))
                      && forall x :: x in r.value.daysOfWeek.value <==> x in SelectedDays(rule) && x != day)
  {
    var current := SelectedDays(rule);
    if Without(current, day) != [] {
      assert Without(current, day)[0] in Without(current, day);
    }
  }

  /** Toggling an unselected day adds it and sorts: the new list is a sorted
      permutation of the old days and the new one. */
  lemma ToggleUnselectedDayAdds(rule: RecurrenceRule, day: int)
    requires day !in SelectedDays(rule)
    ensures var r := DaysOfWeekToggle(rule, day);
      && r.Some? && r.value.daysOfWeek.Some?
      && Sorted(r.value.daysOfWeek.value, NumberTextLe)
      && multiset(r.value.daysOfWeek.value) == multiset(SelectedDays(rule)) + multiset{day}
  {
    var xs := SelectedDays(rule) + [day];
    NumberTextLeIsTotalOrder();
    SortBySorts(xs, NumberTextLe);
    assert day in multiset(JsSort(xs));
  }

  lemma {:induction false} WithoutAbsent(xs: seq<int>, day: int)
    requires day !in xs
    ensures Without(xs, day) == xs
  {
    if xs != [] {
      WithoutAbsent(xs[1..], day);
      assert xs == [xs[0]] + xs[1..];
    }
  }

  lemma {:induction false} WithoutInsert(xs: seq<int>, day: int)
    ensures Without(Insert(day, xs, NumberTextLe), day) == Without(xs, day)
  {
    if xs != [] && NumberTextLe(xs[0], day) {
      WithoutInsert(xs[1..], day);
      var r := Insert(day, xs[1..], NumberTextLe);
      assert ([xs[0]] + r)[0] == xs[0] && ([xs[0]] + r)[1..] == r;
    } else if xs != [] {
      assert ([day] + xs)[1..] == xs;
    }
  }

  /** Adding a day to a sorted selection and removing it again gives the
      selection back. */
  lemma DayToggleTwiceRestores(rule: RecurrenceRule, day: int)
    requires Sorted(SelectedDays(rule), NumberTextLe) && SelectedDays(rule) != []
    requires day !in SelectedDays(rule)
    ensures var r1 := DaysOfWeekToggle(rule, day);
      r1.Some? && DaysOfWeekToggle(r1.value, day) == Some(rule.(daysOfWeek := Some(SelectedDays(rule))))
  {
    var current := SelectedDays(rule);
    AddThenRemove(current, day);
    var once := JsSort(current + [day]);
    var r1 := rule.(daysOfWeek := Some(once));
    assert DaysOfWeekToggle(rule, day) == Some(r1);
  }

  /** Sorting in a new day and filtering it out again gives a sorted list back. */
  lemma AddThenRemove(current: seq<int>, day: int)
    requires Sorted(current, NumberTextLe) && day !in current
    ensures day in JsSort(current + [day])
    ensures Without(JsSort(current + [day]), day) == current
  {
    assert (current + [day])[..|current|] == current;
    NumberTextLeIsTotalOrder();
    SortByOfSorted(current, NumberTextLe);
    SortBySorts(current + [day], NumberTextLe);
    assert day in multiset(JsSort(current + [day]));
    WithoutInsert(current, day);
    WithoutAbsent(current, day);
  }

}
