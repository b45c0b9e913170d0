/** The file of entries: appended to on each submit, read back line by line,
    the well-formed lines kept, and the entries sorted for display. The file is
    a flag saying whether it exists and the list of its lines. */
module Store {
  import opened JavaText
  import opened Records
  import opened CsvLine
  import opened Ordering

  /** What reading the file gives: the sorted entries, or the
      NumberFormatException the comparator throws on a year that does not parse. */
  datatype LoadResult = Loaded(records: seq<OfficeHour>) | NumberFormatError

  /** The entry a line decodes to, as a list of none or one. */
  function Decoded(line: string): seq<OfficeHour> {
    match DecodeLine(line)
    case Some(r) => [r]
    case None => []
  }

  /** The entries of the lines that split into exactly three fields, in file order. */
  function DecodeAll(lines: seq<string>): (records: seq<OfficeHour>)
    ensures |records| <= |lines|
  {
    if lines == [] then []
    else DecodeAll(lines[..|lines| - 1]) + Decoded(lines[|lines| - 1])
  }

  /** Every year parses as an int, so the comparator never throws. */
  predicate YearsParse(records: seq<OfficeHour>) {
    forall i :: 0 <= i < |records| ==> ParseInt(records[i].year).Some?
  }

  /** The result of reading the file. No file gives an empty table. Otherwise
      the sort throws as soon as it compares an entry whose year does not
      parse; a sort of two or more entries compares every entry, a sort of
      fewer compares none. */
  function LoadOf(present: bool, lines: seq<string>): (result: LoadResult)
    ensures !present ==> result == Loaded([])
    ensures result.NumberFormatError? <==> present && |DecodeAll(lines)| >= 2 && !YearsParse(DecodeAll(lines))
    ensures result.Loaded? && present ==> Sorted(Key, result.records)
    ensures result.Loaded? && present ==> multiset(result.records) == multiset(DecodeAll(lines))
  {
    if !present then Loaded([])
    else
      var records := DecodeAll(lines);
      if |records| >= 2 && !YearsParse(records) then NumberFormatError
      else Loaded(StableSort(Key, records))
  }

  /** The file, as a flag saying whether it exists and its lines. */
  class CsvFile {
    var present: bool
    var lines: seq<string>

    /** A file as found on disk; one that does not exist has no lines. */
    constructor (present: bool, lines: seq<string>)
      requires present || lines == []
      ensures this.present == present && this.lines == lines
    {
      this.present := present;
      this.lines := lines;
    }

    /** Append one line: the FileWriter in append mode creates the file when it
        is missing, and println ends the line. */
    method Append(r: OfficeHour)
      requires present || lines == []
      modifies this
      ensures present
      ensures lines == old(lines) + [EncodeLine(r)]
    {
      present := true;
      lines := lines + [EncodeLine(r)];
    }

    /** Read every line, keep the entries of those that split into three
        fields, then sort them for display. */
    method Load() returns (result: LoadResult)
      ensures result == LoadOf(present, lines)
    {
      if !present {
        return Loaded([]);
      }
      var list: seq<OfficeHour> := [];
      var i := 0;
      while i < |lines|
        invariant 0 <= i <= |lines|
        invariant list == DecodeAll(lines[..i])
      {
        var parts := Split(lines[i]);
        if |parts| == 3 {
          var days := StripQuotes(parts[2]);
          list := list + [OfficeHour(parts[0], parts[1], days)];
        }
        assert lines[..i + 1][..i] == lines[..i];
        i := i + 1;
      }
      assert lines[..i] == lines;
      if |list| >= 2 && !YearsParse(list) {
        return NumberFormatError;
      }
      result := Loaded(StableSort(Key, list));
    }
  }

  /** Decoding works line by line: it distributes over concatenation. */
  lemma {:induction false} DecodeAllAppend(a: seq<string>, b: seq<string>)
    ensures DecodeAll(a + b) == DecodeAll(a) + DecodeAll(b)
    decreases |b|
  {
    if b == [] {
      assert a + b == a;
    } else {
      var init := b[..|b| - 1];
      assert (a + b)[..|a + b| - 1] == a + init;
      DecodeAllAppend(a, init);
    }
  }

  /** An entry is read back exactly when some line decodes to it. */
  lemma {:induction false} DecodeAllMembers(lines: seq<string>, r: OfficeHour)
    ensures r in DecodeAll(lines) <==> exists i :: 0 <= i < |lines| && DecodeLine(lines[i]) == Some(r)
  {
    if lines != [] {
      var init, last := lines[..|lines| - 1], lines[|lines| - 1];
      DecodeAllMembers(init, r);
      assert r in Decoded(last) <==> DecodeLine(last) == Some(r);
      if r in DecodeAll(lines) {
        if r in DecodeAll(init) {
          var i :| 0 <= i < |init| && DecodeLine(init[i]) == Some(r);
          assert lines[i] == init[i];
        } else {
          assert DecodeLine(lines[|lines| - 1]) == Some(r);
        }
      }
      if exists i :: 0 <= i < |lines| && DecodeLine(lines[i]) == Some(r) {
        var i :| 0 <= i < |lines| && DecodeLine(lines[i]) == Some(r);
        if i < |lines| - 1 {
          assert init[i] == lines[i];
        }
      }
    }
  }

  /** A line that does not split into three fields adds nothing. */
  lemma MalformedLineSkipped(lines: seq<string>, line: string)
    requires SeparatorCount(line) != 2
    ensures DecodeAll(lines + [line]) == DecodeAll(lines)
  {
    assert (lines + [line])[..|lines|] == lines;
  }

  /** Stability of the loaded table: entries that compare equal (same year
      value, same semester rank) keep the order their lines have in the file. */
  lemma LoadKeepsTiesInFileOrder(lines: seq<string>, k: SortKey)
    requires LoadOf(true, lines).Loaded?
    ensures WithKey(Key, LoadOf(true, lines).records, k) == WithKey(Key, DecodeAll(lines), k)
  {
    StableSortIsStable(Key, DecodeAll(lines), k);
  }

  /** The entries the form writes and the line format carries unchanged: a
      four-digit year, and no comma or quote where the format cannot hold one. */
  predicate Storable(r: OfficeHour) {
    IsFourDigits(r.year) && Encodable(r)
  }

  /** The lines written for the entries, one per entry, in order. */
  function EncodeAll(records: seq<OfficeHour>): (lines: seq<string>)
    ensures |lines| == |records|
  {
    if records == [] then []
    else EncodeAll(records[..|records| - 1]) + [EncodeLine(records[|records| - 1])]
  }

  lemma EncodeAllSnoc(records: seq<OfficeHour>, r: OfficeHour)
    ensures EncodeAll(records + [r]) == EncodeAll(records) + [EncodeLine(r)]
  {
    assert (records + [r])[..|records|] == records;
  }

  /** A file written only by submits reads back as the entries submitted. */
  lemma {:induction false} DecodeAllOfEncoded(records: seq<OfficeHour>)
    requires forall i :: 0 <= i < |records| ==> Encodable(records[i])
    ensures DecodeAll(EncodeAll(records)) == records
  {
    if records != [] {
      var init := records[..|records| - 1];
      var last := records[|records| - 1];
      DecodeAllOfEncoded(init);
      SplitLast(records);
      EncodeAllSnoc(init, last);
      DecodeAllSnoc(EncodeAll(init), EncodeLine(last));
      DecodedOfEncoded(last);
    }
  }

  /** A non-empty list is its front followed by its last element. */
  lemma SplitLast<T>(s: seq<T>)
    requires s != []
    ensures s[..|s| - 1] + [s[|s| - 1]] == s
  {
  }

  /** Reading one more line adds what that line decodes to. */
  lemma DecodeAllSnoc(lines: seq<string>, line: string)
    ensures DecodeAll(lines + [line]) == DecodeAll(lines) + Decoded(line)
  {
    assert (lines + [line])[..|lines|] == lines;
  }

  /** The line written for an encodable entry reads back as that one entry. */
  lemma DecodedOfEncoded(r: OfficeHour)
    requires Encodable(r)
    ensures Decoded(EncodeLine(r)) == [r]
  {
    RoundTrip(r);
  }

  /** A file written only by submits never makes the sort throw: its table is
      the submitted entries in display order. */
  lemma LoadOfSubmitted(records: seq<OfficeHour>)
    requires forall i :: 0 <= i < |records| ==> Storable(records[i])
    ensures LoadOf(true, EncodeAll(records)) == Loaded(StableSort(Key, records))
  {
    DecodeAllOfEncoded(records);
    forall i | 0 <= i < |records|
      ensures ParseInt(records[i].year).Some?
    {
      FourDigitsParse(records[i].year);
    }
  }

  /** Appending one more storable entry to such a file shows it in the reloaded table. */
  lemma LoadAfterAppend(earlier: seq<OfficeHour>, r: OfficeHour)
    requires forall i :: 0 <= i < |earlier| ==> Storable(earlier[i])
    requires Storable(r)
    ensures LoadOf(true, EncodeAll(earlier) + [EncodeLine(r)]) == Loaded(StableSort(Key, earlier + [r]))
    ensures r in LoadOf(true, EncodeAll(earlier) + [EncodeLine(r)]).records
  {
    StorableSnoc(earlier, r);
    EncodeAllSnoc(earlier, r);
    LoadOfSubmitted(earlier + [r]);
    StableSortKeeps(Key, earlier + [r], r);
  }

  /** One more storable entry keeps the whole list storable. */
  lemma StorableSnoc(earlier: seq<OfficeHour>, r: OfficeHour)
    requires forall i :: 0 <= i < |earlier| ==> Storable(earlier[i])
    requires Storable(r)
    ensures forall i :: 0 <= i < |earlier + [r]| ==> Storable((earlier + [r])[i])
  {
    var all := earlier + [r];
    forall i | 0 <= i < |all|
      ensures Storable(all[i])
    {
      if i < |earlier| { assert all[i] == earlier[i]; }
    }
  }
}
