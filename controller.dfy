/** The submit handler: check the form, build the entry, append its line to
    the file, and read the file back into the table shown after the submit. */
module Controller {
  import opened JavaText
  import opened Records
  import opened Form
  import opened CsvLine
  import opened Ordering
  import opened Store

  /** What pressing Submit leads to: the error dialog, or the entry written
      and the table read back afterwards. */
  datatype SubmitOutcome = InputError | Submitted(record: OfficeHour, table: LoadResult)

  /** Submit: on bad input show the error and touch nothing; otherwise build
      the days text, append the entry's line and reload the table. */
  method OnSubmit(form: FormSnapshot, file: CsvFile) returns (outcome: SubmitOutcome)
    requires file.present || file.lines == []
    modifies file
    ensures Validate(form).Rejected? ==> outcome == InputError
    ensures Validate(form).Rejected? ==> file.present == old(file.present) && file.lines == old(file.lines)
    ensures Validate(form).Accepted? ==> file.present
    ensures Validate(form).Accepted? ==> file.lines == old(file.lines) + [EncodeLine(Validate(form).record)]
    ensures Validate(form).Accepted? ==> outcome == Submitted(Validate(form).record, LoadOf(true, file.lines))
  {
    if InputRejected(form) {
      return InputError;
    }
    var year := form.yearText;
    var semester := form.semester.value;
    var days := BuildSelectedDays(form.days);
    var record := OfficeHour(year, semester, days);
    file.Append(record);
    var table := file.Load();
    return Submitted(record, table);
  }

  /** The drop-down items hold no comma and no quote. */
  lemma SemesterIsPlain(i: nat)
    requires i < 4
    ensures ',' !in Semesters[i] && '"' !in Semesters[i]
  {
    var name := Semesters[i];
    assert forall j :: 0 <= j < |name| ==> 'A' <= name[j] <= 'z';
  }

  /** An entry accepted from a semester the drop-down offers is one the file
      format carries unchanged. */
  lemma AcceptedIsStorable(form: FormSnapshot)
    requires Validate(form).Accepted?
    requires form.semester.value in Semesters
    ensures Storable(Validate(form).record)
  {
    var r := Validate(form).record;
    var i :| 0 <= i < 4 && Semesters[i] == r.semester;
    SemesterIsPlain(i);
    assert forall j :: 0 <= j < |r.year| ==> IsDigit(r.year[j]);
  }

  /** When the file was written by earlier submits only, a new submit from a
      drop-down semester never makes the sort throw, and the table it shows is
      every submitted entry, the new one included, in display order. */
  lemma SubmitShowsEntry(earlier: seq<OfficeHour>, form: FormSnapshot)
    requires forall i :: 0 <= i < |earlier| ==> Storable(earlier[i])
    requires Validate(form).Accepted?
    requires form.semester.value in Semesters
    ensures LoadOf(true, EncodeAll(earlier) + [EncodeLine(Validate(form).record)])
              == Loaded(StableSort(Key, earlier + [Validate(form).record]))
    ensures Validate(form).record in LoadOf(true, EncodeAll(earlier) + [EncodeLine(Validate(form).record)]).records
  {
    AcceptedIsStorable(form);
    LoadAfterAppend(earlier, Validate(form).record);
  }
}
