/** Weekday bookkeeping: `day_name_fi` (lunchbot.py:117-134) and the rule
    that picks tomorrow's index (lunchbot.py:497-501). Day numbers follow
    Python's `weekday()`: Monday is 0 and Sunday is 6. */
module Days {
  import opened Text

  /** The Finnish name of a weekday. The source falls off its if/elif
      chain outside 0..6; the model leaves those numbers out of the domain. */
  function DayNameFi(d: int): (r: string)
    requires 0 <= d <= 6
    ensures 7 <= |r| <= 11
    ensures Lower(r) == r
  {
    if d == 0 then "maanantai"
    else if d == 1 then "tiistai"
    else if d == 2 then "keskiviikko"
    else if d == 3 then "torstai"
    else if d == 4 then "perjantai"
    else if d == 5 then "lauantai"
    else "sunnuntai"
  }

  /** The seven names are pairwise different. */
  lemma DayNamesDistinct(i: int, j: int)
    requires 0 <= i <= 6 && 0 <= j <= 6 && i != j
    ensures DayNameFi(i) != DayNameFi(j)
  {
  }

  /** Reference definition: the first working day (Monday to Friday) after
      `today`, counting round the week. */
  function NextWorkday(today: int): (w: int)
    requires 0 <= today <= 6
    ensures 0 <= w <= 4
  {
    if (today + 1) % 7 <= 4 then (today + 1) % 7 else 0
  }

  /** `tomorrow_number`: Friday is followed by Monday, every other day by the
      next number. That is the next working day exactly on working days; on
      Saturday it is 6, and on Sunday it is 7, outside the table. */
  function TomorrowNumber(today: int): (t: int)
    requires 0 <= today <= 6
    ensures t == NextWorkday(today) <==> today <= 4
    ensures 0 <= t <= 6 <==> today != 6
    ensures today == 5 ==> t == 6
    ensures today == 6 ==> t == 7
  {
    if today == 4 then 0 else today + 1
  }

  /** `tomorrow_fi = day_name_fi(tomorrow_number).lower()`. On Sunday the
      table yields `None` and `.lower()` fails; the model returns `None`. */
  function TomorrowFi(today: int): (r: Option<string>)
    requires 0 <= today <= 6
    ensures r.None? <==> today == 6
    ensures r.Some? ==> r.value == DayNameFi(TomorrowNumber(today))
  {
    var t := TomorrowNumber(today);
    if 0 <= t <= 6 then Some(Lower(DayNameFi(t))) else None
  }

  /** `s` has no occurrence of `p` because the first two characters of `p`
      never stand side by side in `s`. */
  lemma NoPair(s: string, p: string)
    requires |p| >= 2 && forall i :: 0 <= i < |s| - 1 ==> !(s[i] == p[0] && s[i + 1] == p[1])
    ensures !Contains(s, p)
  {
    ContainsIff(s, p);
  }

  /** From Monday to Saturday, today's name does not contain tomorrow's, so a
      block that names only today starts a submenu without ending it at once. */
  lemma TodayDoesNotNameTomorrow(today: int)
    requires 0 <= today <= 5
    ensures !Contains(DayNameFi(today), DayNameFi(TomorrowNumber(today)))
  {
    var s, p := DayNameFi(today), DayNameFi(TomorrowNumber(today));
    if today == 0 {
      NoPair(s, p);
    } else if today == 2 || today == 4 {
      assert p[0] !in s;
      ContainsNeedsRoom(s, p);
    } else {
      ContainsNeedsRoom(s, p);
    }
  }
}
