/** The input form: a snapshot of its widgets at submit time, the submit guard,
    the days text built from the check boxes, and the year field's digit filter. */
module Form {
  import opened JavaText
  import opened Records

  /** The five day check boxes. */
  datatype DayFlags = DayFlags(monday: bool, tuesday: bool, wednesday: bool, thursday: bool, friday: bool)
  {
    /** Box i, counting Monday as 0. */
    function Checked(i: nat): bool
      requires i < 5
    {
      if i == 0 then monday
      else if i == 1 then tuesday
      else if i == 2 then wednesday
      else if i == 3 then thursday
      else friday
    }

    predicate Any() {
      monday || tuesday || wednesday || thursday || friday
    }
  }

  /** What the widgets hold when Submit is pressed: the year text, the
      drop-down's value (None when nothing is chosen) and the check boxes. */
  datatype FormSnapshot = FormSnapshot(yearText: string, semester: Option<string>, days: DayFlags)

  /** The outcome of the submit guard: an error dialog, or the entry to store. */
  datatype Submission = Rejected | Accepted(record: OfficeHour)

  /** The names of the checked boxes among the first k days, in day order. */
  ghost function NamesUpTo(f: DayFlags, k: nat): seq<string>
    requires k <= 5
  {
    if k == 0 then []
    else NamesUpTo(f, k - 1) + (if f.Checked(k - 1) then [WeekDays[k - 1]] else [])
  }

  /** A day's name when its box is checked. */
  function Piece(checked: bool, name: string): seq<string> {
    if checked then [name] else []
  }

  /** The checked day names, Monday to Friday. */
  function SelectedNames(f: DayFlags): seq<string> {
    Piece(f.monday, "Monday") + Piece(f.tuesday, "Tuesday") + Piece(f.wednesday, "Wednesday")
      + Piece(f.thursday, "Thursday") + Piece(f.friday, "Friday")
  }

  /** Box by box and day by day give the same names. */
  lemma SelectedNamesUpTo(f: DayFlags)
    ensures SelectedNames(f) == NamesUpTo(f, 5)
  {
    assert NamesUpTo(f, 1) == Piece(f.monday, "Monday");
    assert NamesUpTo(f, 2) == NamesUpTo(f, 1) + Piece(f.tuesday, "Tuesday");
    assert NamesUpTo(f, 3) == NamesUpTo(f, 2) + Piece(f.wednesday, "Wednesday");
    assert NamesUpTo(f, 4) == NamesUpTo(f, 3) + Piece(f.thursday, "Thursday");
    assert NamesUpTo(f, 5) == NamesUpTo(f, 4) + Piece(f.friday, "Friday");
  }

  /** The days text of an entry: the checked day names joined by ", ". */
  function DaysText(f: DayFlags): string {
    Join(SelectedNames(f), ", ")
  }

  /** A day is among the first k names exactly when it is one of the first k days and checked. */
  lemma {:induction false} NamesUpToMembers(f: DayFlags, k: nat)
    requires k <= 5
    ensures forall i :: 0 <= i < 5 ==> (WeekDays[i] in NamesUpTo(f, k) <==> i < k && f.Checked(i))
  {
    if k > 0 {
      NamesUpToMembers(f, k - 1);
      assert DayIndex(WeekDays[k - 1]) == k - 1;
      forall i | 0 <= i < 5
        ensures WeekDays[i] in NamesUpTo(f, k) <==> i < k && f.Checked(i)
      {
        assert DayIndex(WeekDays[i]) == i;
      }
    }
  }

  /** The first k names are among the first k days, strictly in day order. */
  lemma {:induction false} NamesUpToOrdered(f: DayFlags, k: nat)
    requires k <= 5
    ensures forall j :: 0 <= j < |NamesUpTo(f, k)| ==> DayIndex(NamesUpTo(f, k)[j]) < k
    ensures forall j, l :: 0 <= j < l < |NamesUpTo(f, k)| ==>
              DayIndex(NamesUpTo(f, k)[j]) < DayIndex(NamesUpTo(f, k)[l])
  {
    if k > 0 {
      var prev, cur := NamesUpTo(f, k - 1), NamesUpTo(f, k);
      NamesUpToOrdered(f, k - 1);
      assert DayIndex(WeekDays[k - 1]) == k - 1;
      forall j | 0 <= j < |cur|
        ensures DayIndex(cur[j]) < k
      {
        if j < |prev| { assert cur[j] == prev[j]; }
      }
      forall j, l | 0 <= j < l < |cur|
        ensures DayIndex(cur[j]) < DayIndex(cur[l])
      {
        assert cur[j] == prev[j];
        if l < |prev| { assert cur[l] == prev[l]; }
      }
    }
  }

  /** The days text names exactly the checked boxes, each once, Monday to Friday. */
  lemma SelectedNamesExact(f: DayFlags)
    ensures forall i :: 0 <= i < 5 ==> (WeekDays[i] in SelectedNames(f) <==> f.Checked(i))
    ensures forall j, l :: 0 <= j < l < |SelectedNames(f)| ==>
              DayIndex(SelectedNames(f)[j]) < DayIndex(SelectedNames(f)[l])
  {
    NamesUpToMembers(f, 5);
    NamesUpToOrdered(f, 5);
    SelectedNamesUpTo(f);
  }

  /** Some box is checked exactly when some day is named. */
  lemma SelectedNamesNonEmpty(f: DayFlags)
    ensures SelectedNames(f) != [] <==> f.Any()
  {
    var names := SelectedNames(f);
    NamesUpToMembers(f, 5);
    NamesUpToOrdered(f, 5);
    SelectedNamesUpTo(f);
    if f.Any() {
      var i := if f.monday then 0 else if f.tuesday then 1 else if f.wednesday then 2
               else if f.thursday then 3 else 4;
      assert f.Checked(i) && WeekDays[i] in names;
    }
  }

  /** Every name in the list is a day label. */
  lemma SelectedNamesAreDays(f: DayFlags)
    ensures forall j :: 0 <= j < |SelectedNames(f)| ==> SelectedNames(f)[j] in WeekDays
  {
    NamesUpToMembers(f, 5);
    NamesUpToOrdered(f, 5);
    SelectedNamesUpTo(f);
  }

  /** Day labels joined by ", ": empty only for no labels, and without quotes. */
  lemma {:induction false} JoinOfDays(names: seq<string>)
    requires forall j :: 0 <= j < |names| ==> names[j] in WeekDays
    ensures Join(names, ", ") != "" <==> names != []
    ensures '"' !in Join(names, ", ")
  {
    forall j | 0 <= j < |names|
      ensures '"' !in names[j] && names[j] != ""
    {
      var d := DayIndex(names[j]);
      assert d < 5 && names[j] == WeekDays[d];
    }
    JoinAvoids(names, ", ", '"');
    if |names| > 1 {
      assert Join(names, ", ") == names[0] + ", " + Join(names[1..], ", ");
    }
  }

  /** The days text is empty exactly when no box is checked, and never holds a quote. */
  lemma DaysTextFacts(f: DayFlags)
    ensures DaysText(f) != "" <==> f.Any()
    ensures '"' !in DaysText(f)
  {
    SelectedNamesAreDays(f);
    SelectedNamesNonEmpty(f);
    JoinOfDays(SelectedNames(f));
  }

  /** The day names, each followed by ", ", as the StringBuilder accumulates them. */
  function Terminated(names: seq<string>, sep: string): string {
    if names == [] then "" else Terminated(names[..|names| - 1], sep) + names[|names| - 1] + sep
  }

  /** The text the handler appends for each day is the day's name and ", ". */
  lemma Entries()
    ensures "Monday, " == "Monday" + ", "
    ensures "Tuesday, " == "Tuesday" + ", "
    ensures "Wednesday, " == "Wednesday" + ", "
    ensures "Thursday, " == "Thursday" + ", "
    ensures "Friday, " == "Friday" + ", "
  {
  }

  /** The names, accumulated one box at a time from the empty list. */
  lemma SelectedNamesInSteps(f: DayFlags)
    ensures [] + Piece(f.monday, "Monday") + Piece(f.tuesday, "Tuesday") + Piece(f.wednesday, "Wednesday")
          + Piece(f.thursday, "Thursday") + Piece(f.friday, "Friday") == SelectedNames(f)
  {
    assert [] + Piece(f.monday, "Monday") == Piece(f.monday, "Monday");
  }

  /** One more step of the StringBuilder: append the day and ", " when its box is checked. */
  lemma TerminatedStep(names: seq<string>, checked: bool, name: string, entry: string, before: string, after: string)
    requires entry == name + ", "
    requires before == Terminated(names, ", ")
    requires after == if checked then before + entry else before
    ensures after == Terminated(names + Piece(checked, name), ", ")
  {
    if checked {
      var more := names + [name];
      assert more[..|more| - 1] == names;
    } else {
      assert names + Piece(checked, name) == names;
    }
  }

  lemma {:induction false} TerminatedIsJoinPlusSeparator(names: seq<string>, sep: string)
    requires names != []
    ensures Terminated(names, sep) == Join(names, sep) + sep
  {
    var init := names[..|names| - 1];
    if init == [] {
      assert names == [names[0]];
    } else {
      TerminatedIsJoinPlusSeparator(init, sep);
      JoinSnoc(init, names[|names| - 1], sep);
      assert init + [names[|names| - 1]] == names;
    }
  }

  /** Cutting the last two characters turns the accumulated text into the join. */
  lemma CutSeparator(names: seq<string>, sb: string)
    requires sb == Terminated(names, ", ")
    ensures |sb| > 0 ==> |sb| >= 2 && sb[..|sb| - 2] == Join(names, ", ")
    ensures |sb| == 0 ==> sb == Join(names, ", ")
  {
    if names != [] {
      TerminatedIsJoinPlusSeparator(names, ", ");
    }
  }

  /** The StringBuilder steps of the submit handler: append each checked day
      with ", ", Monday to Friday, then cut the last two characters. */
  method BuildSelectedDays(f: DayFlags) returns (days: string)
    ensures days == DaysText(f)
  {
    var sb := "";
    ghost var names: seq<string>, prev := [], sb;
    Entries();
    if f.monday { sb := sb + "Monday, "; }
    TerminatedStep(names, f.monday, "Monday", "Monday, ", prev, sb);
    names, prev := names + Piece(f.monday, "Monday"), sb;
    if f.tuesday { sb := sb + "Tuesday, "; }
    TerminatedStep(names, f.tuesday, "Tuesday", "Tuesday, ", prev, sb);
    names, prev := names + Piece(f.tuesday, "Tuesday"), sb;
    if f.wednesday { sb := sb + "Wednesday, "; }
    TerminatedStep(names, f.wednesday, "Wednesday", "Wednesday, ", prev, sb);
    names, prev := names + Piece(f.wednesday, "Wednesday"), sb;
    if f.thursday { sb := sb + "Thursday, "; }
    TerminatedStep(names, f.thursday, "Thursday", "Thursday, ", prev, sb);
    names, prev := names + Piece(f.thursday, "Thursday"), sb;
    if f.friday { sb := sb + "Friday, "; }
    TerminatedStep(names, f.friday, "Friday", "Friday, ", prev, sb);
    names, prev := names + Piece(f.friday, "Friday"), sb;
    SelectedNamesInSteps(f);
    CutSeparator(names, sb);
    if |sb| > 0 {
      sb := sb[..|sb| - 2];
    }
    days := sb;
  }

  /** The submit guard exactly as the handler writes it, the empty test included. */
  predicate InputRejected(form: FormSnapshot)
    ensures InputRejected(form) <==> form.semester.None? || !IsFourDigits(form.yearText) || !form.days.Any()
  {
    form.semester.None? || form.yearText == "" || !IsFourDigits(form.yearText) || !form.days.Any()
  }

  /** A stored entry as the form can produce it: a four-digit year and a
      non-empty days text without quotes. */
  predicate WellFormed(r: OfficeHour) {
    IsFourDigits(r.year) && r.selectedDays != "" && '"' !in r.selectedDays
  }

  /** Submit: reject, or build the entry from the snapshot. */
  function Validate(form: FormSnapshot): (s: Submission)
    ensures s.Rejected? <==> form.semester.None? || !IsFourDigits(form.yearText) || !form.days.Any()
    ensures s.Accepted? ==> WellFormed(s.record)
    ensures s.Accepted? ==> s.record.year == form.yearText && Some(s.record.semester) == form.semester
    ensures s.Accepted? ==> s.record.selectedDays == DaysText(form.days)
  {
    if InputRejected(form) then Rejected
    else
      DaysTextFacts(form.days);
      Accepted(OfficeHour(form.yearText, form.semester.value, DaysText(form.days)))
  }

  /** The year text field with its change listener attached. */
  class YearField {
    var text: string

    constructor ()
      ensures text == ""
    {
      text := "";
    }

    /** An edit sets the text; the listener then replaces a text that is not all
        digits by its digits alone. The listener fires again on that
        replacement, finds only digits and leaves it. */
    method Edit(newText: string)
      modifies this
      ensures AllDigits(text)
      ensures text == RemoveNonDigits(newText)
      ensures AllDigits(newText) ==> text == newText
    {
      text := newText;
      if !AllDigits(newText) {
        text := RemoveNonDigits(newText);
      } else {
        RemoveNonDigitsKeepsDigits(newText);
      }
    }
  }
}
