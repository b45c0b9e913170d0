/** One line of officeHours.csv: how an entry is written as a line, and how a
    line is cut into fields and read back as an entry. */
module CsvLine {
  import opened JavaText
  import opened Records

  /** What `println` writes for an entry, without the line separator:
      the year, the semester and the days text in double quotes, comma-separated. */
  function EncodeLine(r: OfficeHour): (line: string)
    ensures '\n' in line <==> '\n' in r.year || '\n' in r.semester || '\n' in r.selectedDays
    ensures '\r' in line <==> '\r' in r.year || '\r' in r.semester || '\r' in r.selectedDays
  {
    r.year + "," + r.semester + ",\"" + r.selectedDays + "\""
  }

  /** The comma at position i is one that `,(?=([^"]*"[^"]*")*[^"]*$)` matches:
      the lookahead holds exactly when the rest of the line after the comma
      holds an even number of double quotes. */
  predicate IsSeparator(s: string, i: nat)
    requires i < |s|
  {
    s[i] == ',' && CountOf(s[i + 1..], '"') % 2 == 0
  }

  /** Where the first `c` of `s` is, or |s| when there is none. */
  function IndexOf(s: string, c: char): (i: nat)
    ensures i <= |s|
    ensures i < |s| ==> s[i] == c
    ensures forall j :: 0 <= j < i ==> s[j] != c
  {
    if s == [] then 0 else if s[0] == c then 0 else 1 + IndexOf(s[1..], c)
  }

  /** The lookahead `([^"]*"[^"]*")*[^"]*$` read as its grammar: the text is
      quote-free, or it is a quote-free run, a quote, and then the rest of a
      pair. The runs cannot swallow a quote, so each quote is matched where it
      first occurs. */
  predicate LookaheadMatches(t: string)
    decreases |t|, 1
  {
    IndexOf(t, '"') == |t| || PairThenLookahead(t[IndexOf(t, '"') + 1..])
  }

  /** The rest of a pair: a quote-free run, the closing quote, and then text
      the lookahead matches. */
  predicate PairThenLookahead(u: string)
    decreases |u|, 0
  {
    IndexOf(u, '"') < |u| && LookaheadMatches(u[IndexOf(u, '"') + 1..])
  }

  /** Counting from the first `c`: one for it, plus those after it. */
  lemma CountFromFirst(t: string, c: char)
    ensures IndexOf(t, c) == |t| ==> CountOf(t, c) == 0
    ensures IndexOf(t, c) < |t| ==> CountOf(t, c) == 1 + CountOf(t[IndexOf(t, c) + 1..], c)
  {
    var i := IndexOf(t, c);
    assert c !in t[..i];
    CountOfAbsent(t[..i], c);
    if i < |t| {
      assert t == t[..i] + [c] + t[i + 1..];
      CountOfAppend(t[..i] + [c], t[i + 1..], c);
      CountOfAppend(t[..i], [c], c);
    } else {
      assert t[..i] == t;
    }
  }

  /** The lookahead holds exactly when the text has an even number of quotes. */
  lemma {:induction false} LookaheadIsEvenQuotes(t: string)
    ensures LookaheadMatches(t) <==> CountOf(t, '"') % 2 == 0
    decreases |t|, 1
  {
    CountFromFirst(t, '"');
    var i := IndexOf(t, '"');
    if i < |t| {
      PairIsOddQuotes(t[i + 1..]);
    }
  }

  /** The rest of a pair is matched exactly when it has an odd number of quotes. */
  lemma {:induction false} PairIsOddQuotes(u: string)
    ensures PairThenLookahead(u) <==> CountOf(u, '"') % 2 == 1
    decreases |u|, 0
  {
    CountFromFirst(u, '"');
    var j := IndexOf(u, '"');
    if j < |u| {
      LookaheadIsEvenQuotes(u[j + 1..]);
    }
  }

  /** A comma is a cut point exactly when the regex's lookahead matches the rest of the line after it. */
  lemma SeparatorIsLookahead(s: string, i: nat)
    requires i < |s|
    ensures IsSeparator(s, i) <==> s[i] == ',' && LookaheadMatches(s[i + 1..])
  {
    LookaheadIsEvenQuotes(s[i + 1..]);
  }

  /** How many commas of the line the pattern matches. */
  function SeparatorCount(s: string): nat {
    if s == [] then 0 else (if IsSeparator(s, 0) then 1 else 0) + SeparatorCount(s[1..])
  }

  /** The first matched comma at or after `from`, or |s| when there is none. */
  function FirstSeparator(s: string, from: nat): (i: nat)
    requires from <= |s|
    ensures from <= i <= |s|
    ensures i < |s| ==> IsSeparator(s, i)
    ensures forall j :: from <= j < i ==> !IsSeparator(s, j)
    decreases |s| - from
  {
    if from == |s| then |s|
    else if IsSeparator(s, from) then from
    else FirstSeparator(s, from + 1)
  }

  /** `line.split(pattern, -1)`: cut at every matched comma, keeping empty
      fields, including trailing ones. */
  function Split(s: string): (fields: seq<string>)
    ensures |fields| >= 1
    decreases |s|
  {
    var i := FirstSeparator(s, 0);
    if i == |s| then [s] else [s[..i]] + Split(s[i + 1..])
  }

  /** Whether a comma is matched depends only on what follows it. */
  lemma SeparatorInSuffix(s: string, j: nat)
    requires 0 < j < |s|
    ensures IsSeparator(s, j) <==> IsSeparator(s[1..], j - 1)
  {
    assert s[1..][j..] == s[j + 1..];
  }

  lemma {:induction false} SeparatorCountSkip(s: string, i: nat)
    requires i <= |s|
    requires forall j :: 0 <= j < i ==> !IsSeparator(s, j)
    ensures SeparatorCount(s) == SeparatorCount(s[i..])
  {
    if i > 0 {
      forall j | 0 <= j < i - 1
        ensures !IsSeparator(s[1..], j)
      {
        SeparatorInSuffix(s, j + 1);
      }
      SeparatorCountSkip(s[1..], i - 1);
      assert s[1..][i - 1..] == s[i..];
    }
  }

  /** How the split proceeds: the text up to the first matched comma, then the split of the rest. */
  lemma SplitStep(s: string, i: nat)
    requires i == FirstSeparator(s, 0) && i < |s|
    ensures Split(s) == [s[..i]] + Split(s[i + 1..])
    ensures s == s[..i] + "," + s[i + 1..]
  {
    CutAtComma(s, i);
  }

  lemma CutAtComma(s: string, i: nat)
    requires i < |s| && s[i] == ','
    ensures s == s[..i] + "," + s[i + 1..]
  {
    assert [s[i]] == ",";
    assert s == s[..i] + [s[i]] + s[i + 1..];
  }

  /** The fields joined by commas give the line back. */
  lemma {:induction false} SplitJoin(s: string)
    ensures Join(Split(s), ",") == s
    decreases |s|
  {
    var i := FirstSeparator(s, 0);
    if i < |s| {
      SplitStep(s, i);
      SplitJoin(s[i + 1..]);
      var fields := Split(s);
      assert fields[1..] == Split(s[i + 1..]);
    }
  }

  /** There is one field more than there are matched commas. */
  lemma {:induction false} SplitCount(s: string)
    ensures |Split(s)| == SeparatorCount(s) + 1
    decreases |s|
  {
    var i := FirstSeparator(s, 0);
    SeparatorCountSkip(s, i);
    if i < |s| {
      SplitStep(s, i);
      SplitCount(s[i + 1..]);
      assert s[i..][1..] == s[i + 1..];
    }
  }

  /** The text after each cut holds an even number of quotes. */
  lemma {:induction false} SplitCuts(s: string)
    ensures forall k :: 0 < k < |Split(s)| ==> CountOf(Join(Split(s)[k..], ","), '"') % 2 == 0
    decreases |s|
  {
    var i := FirstSeparator(s, 0);
    if i < |s| {
      var rest := s[i + 1..];
      SplitStep(s, i);
      var fields := Split(s);
      var more := Split(rest);
      assert fields == [s[..i]] + more;
      SplitCuts(rest);
      forall k | 0 < k < |fields|
        ensures CountOf(Join(fields[k..], ","), '"') % 2 == 0
      {
        assert fields[k..] == more[k - 1..];
        if k == 1 {
          assert more[0..] == more;
          SplitJoin(rest);
          assert IsSeparator(s, i);
        }
      }
    }
  }

  /** The split cuts exactly at the matched commas: the fields joined by commas
      give the line back, there is one field more than matched commas, and the
      text after each cut holds an even number of quotes. */
  lemma SplitSpec(s: string)
    ensures Join(Split(s), ",") == s
    ensures |Split(s)| == SeparatorCount(s) + 1
    ensures forall k :: 0 < k < |Split(s)| ==> CountOf(Join(Split(s)[k..], ","), '"') % 2 == 0
  {
    SplitJoin(s);
    SplitCount(s);
    SplitCuts(s);
  }

  /** A line without matched commas is a single field. */
  lemma SplitWhole(s: string)
    requires forall j :: 0 <= j < |s| ==> !IsSeparator(s, j)
    ensures Split(s) == [s]
  {
  }

  /** A comma-free first field is cut off at its comma when the rest holds an even number of quotes. */
  lemma SplitAtFirst(a: string, b: string)
    requires ',' !in a
    requires CountOf(b, '"') % 2 == 0
    ensures Split(a + "," + b) == [a] + Split(b)
  {
    var s := a + "," + b;
    assert s[|a| + 1..] == b;
    assert IsSeparator(s, |a|);
    forall j | 0 <= j < |a|
      ensures !IsSeparator(s, j)
    {
      assert s[j] == a[j];
    }
    assert s[..|a|] == a;
  }

  /** Line terminators that Java's `$` may stand in front of at the end of the input. */
  predicate IsLineTerminator(c: char) {
    c == '\n' || c == '\r' || c == '\U{0085}' || c == '\U{2028}' || c == '\U{2029}'
  }

  /** `field.replaceAll("^\"|\"$", "")`: drop a quote at the very start, and a
      quote where `$` matches after it: at the very end, or in front of one
      final line terminator, or in front of a final "\r\n". */
  function StripQuotes(p: string): (r: string)
    ensures |p| - 2 <= |r| <= |p|
    ensures '"' !in p ==> r == p
  {
    var a := if p != [] && p[0] == '"' then p[1..] else p;
    var n := |a|;
    if n >= 1 && a[n - 1] == '"' then a[..n - 1]
    else if n >= 2 && a[n - 2] == '"' && IsLineTerminator(a[n - 1]) then a[..n - 2] + a[n - 1..]
    else if n >= 3 && a[n - 3] == '"' && a[n - 2..] == "\r\n" then a[..n - 3] + a[n - 2..]
    else a
  }

  /** Where Java's `$` (without MULTILINE) matches in p: at the very end, in
      front of one final line terminator (but not between "\r" and "\n"), or
      in front of a final "\r\n". */
  predicate DollarAt(p: string, i: nat) {
    i == |p|
    || (i + 1 == |p| && IsLineTerminator(p[i]) && !(p[i] == '\n' && i > 0 && p[i - 1] == '\r'))
    || (i + 2 == |p| && p[i..] == "\r\n")
  }

  /** How many leading characters `^"` removes: one quote at the very start, or none. */
  function LeadingQuote(p: string): (n: nat)
    ensures n <= |p|
    ensures n == 1 <==> p != [] && p[0] == '"'
  {
    if p != [] && p[0] == '"' then 1 else 0
  }

  /** A quote after the leading one that `$` follows is removed; the leading
      quote goes too, and every other character stays, in order. */
  lemma StripQuotesRemovesEndQuote(p: string, k: nat)
    requires LeadingQuote(p) <= k < |p| && p[k] == '"' && DollarAt(p, k + 1)
    ensures StripQuotes(p) == p[LeadingQuote(p)..k] + p[k + 1..]
  {
    var a := p[LeadingQuote(p)..];
    var n := |a|;
    assert a[n - (|p| - k)] == '"';
    if k + 1 == |p| {
      assert a[..n - 1] == p[LeadingQuote(p)..k];
      assert p[k + 1..] == [];
    } else if k + 2 == |p| {
      assert a[n - 1] == p[k + 1];
      assert a[..n - 2] == p[LeadingQuote(p)..k];
      assert a[n - 1..] == p[k + 1..];
    } else {
      assert k + 3 == |p| && p[k + 1..] == "\r\n";
      assert p[k + 1] == '\r' && p[k + 2] == '\n';
      assert a[n - 2] == p[k + 1] && a[n - 1] == p[k + 2];
      assert a[..n - 3] == p[LeadingQuote(p)..k];
      assert a[n - 2..] == p[k + 1..];
    }
  }

  /** Without such a quote only the leading quote, if any, is removed. */
  lemma StripQuotesKeepsTail(p: string)
    requires forall k :: LeadingQuote(p) <= k < |p| && p[k] == '"' ==> !DollarAt(p, k + 1)
    ensures StripQuotes(p) == p[LeadingQuote(p)..]
  {
    NoQuoteBeforeEnd(p);
    var a := p[LeadingQuote(p)..];
    var n := |a|;
    assert !(n >= 1 && a[n - 1] == '"') by {
      if n >= 1 { assert a[n - 1] == p[|p| - 1]; }
    }
    assert !(n >= 2 && a[n - 2] == '"' && IsLineTerminator(a[n - 1])) by {
      if n >= 2 { assert a[n - 2] == p[|p| - 2] && a[n - 1] == p[|p| - 1]; }
    }
    assert !(n >= 3 && a[n - 3] == '"' && a[n - 2..] == "\r\n") by {
      if n >= 3 { assert a[n - 3] == p[|p| - 3] && a[n - 2..] == p[|p| - 2..]; }
    }
  }

  /** The three places `$` can follow a quote, none of them holding one. */
  lemma NoQuoteBeforeEnd(p: string)
    requires forall k :: LeadingQuote(p) <= k < |p| && p[k] == '"' ==> !DollarAt(p, k + 1)
    ensures |p| >= LeadingQuote(p) + 1 ==> p[|p| - 1] != '"'
    ensures |p| >= LeadingQuote(p) + 2 && IsLineTerminator(p[|p| - 1]) ==> p[|p| - 2] != '"'
    ensures |p| >= LeadingQuote(p) + 3 && p[|p| - 2..] == "\r\n" ==> p[|p| - 3] != '"'
  {
    var m := |p|;
    if m >= LeadingQuote(p) + 1 {
      assert DollarAt(p, m);
    }
    if m >= LeadingQuote(p) + 2 && IsLineTerminator(p[m - 1]) && p[m - 2] != '\r' {
      assert DollarAt(p, m - 1);
    }
    if m >= LeadingQuote(p) + 3 && p[m - 2..] == "\r\n" {
      assert DollarAt(p, m - 2);
    }
  }

  /** Quoting and then stripping gives the text back, whatever it holds. */
  lemma StripQuotesOfQuoted(d: string)
    ensures StripQuotes("\"" + d + "\"") == d
  {
    var q := "\"" + d + "\"";
    assert q[1..] == d + "\"";
    assert (d + "\"")[..|d|] == d;
  }

  /** Reading a line back: exactly three fields, or the line is skipped. */
  function DecodeLine(line: string): (r: Option<OfficeHour>)
    ensures r.Some? <==> SeparatorCount(line) == 2
  {
    SplitSpec(line);
    var parts := Split(line);
    if |parts| == 3 then Some(OfficeHour(parts[0], parts[1], StripQuotes(parts[2]))) else None
  }

  /** The entries the line format carries unchanged: no comma or quote in the
      two bare fields, no quote in the quoted days text. */
  predicate Encodable(r: OfficeHour) {
    ',' !in r.year && '"' !in r.year && ',' !in r.semester && '"' !in r.semester && '"' !in r.selectedDays
  }

  /** No comma inside the quoted days text is matched: each has one quote after it. */
  lemma QuotedHasNoSeparator(d: string)
    requires '"' !in d
    ensures forall j :: 0 <= j < |"\"" + d + "\""| ==> !IsSeparator("\"" + d + "\"", j)
  {
    var q := "\"" + d + "\"";
    forall j | 0 <= j < |q| && q[j] == ','
      ensures CountOf(q[j + 1..], '"') == 1
    {
      assert 1 <= j <= |d|;
      assert q[j + 1..] == d[j..] + "\"";
      CountOfAppend(d[j..], "\"", '"');
      CountOfAbsent(d[j..], '"');
    }
  }

  /** The quoted days text holds exactly its two enclosing quotes. */
  lemma QuotedHasTwoQuotes(d: string)
    requires '"' !in d
    ensures CountOf("\"" + d + "\"", '"') == 2
  {
    CountOfAbsent(d, '"');
    CountOfAppend("\"", d, '"');
    CountOfAppend("\"" + d, "\"", '"');
  }

  /** A quote-free field and a comma before the quoted text add no quote. */
  lemma FieldBeforeQuoted(a: string, q: string)
    requires '"' !in a
    ensures CountOf(a + "," + q, '"') == CountOf(q, '"')
  {
    CountOfAbsent(a + ",", '"');
    CountOfAppend(a + ",", q, '"');
  }

  lemma {:induction false} EncodeLineSplit(r: OfficeHour)
    requires Encodable(r)
    ensures Split(EncodeLine(r)) == [r.year, r.semester, "\"" + r.selectedDays + "\""]
  {
    var q := "\"" + r.selectedDays + "\"";
    var tail := r.semester + "," + q;
    assert EncodeLine(r) == r.year + "," + tail;
    QuotedHasTwoQuotes(r.selectedDays);
    FieldBeforeQuoted(r.semester, q);
    SplitAtFirst(r.year, tail);
    SplitAtFirst(r.semester, q);
    QuotedHasNoSeparator(r.selectedDays);
    SplitWhole(q);
  }

  /** Round trip: an entry the format can carry is read back as itself. */
  lemma RoundTrip(r: OfficeHour)
    requires Encodable(r)
    ensures DecodeLine(EncodeLine(r)) == Some(r)
  {
    EncodeLineSplit(r);
    StripQuotesOfQuoted(r.selectedDays);
  }

  /** With a line holding no quotes before `a`, every comma of `a` is matched
      exactly when an even number of quotes follows `a`. */
  lemma {:induction false} SeparatorCountAppend(a: string, b: string)
    requires '"' !in a
    ensures SeparatorCount(a + b) == (if CountOf(b, '"') % 2 == 0 then CountOf(a, ',') else 0) + SeparatorCount(b)
  {
    if a != [] {
      var s := a + b;
      assert s[1..] == a[1..] + b;
      CountOfAbsent(a[1..], '"');
      CountOfAppend(a[1..], b, '"');
      SeparatorCountAppend(a[1..], b);
    } else {
      assert a + b == b;
    }
  }

  lemma {:induction false} SeparatorCountNone(s: string)
    requires forall j :: 0 <= j < |s| ==> !IsSeparator(s, j)
    ensures SeparatorCount(s) == 0
  {
    if s != [] {
      forall j | 0 <= j < |s| - 1
        ensures !IsSeparator(s[1..], j)
      {
        SeparatorInSuffix(s, j + 1);
      }
      SeparatorCountNone(s[1..]);
    }
  }

  /** For fields without quotes, an entry survives the round trip exactly
      when neither bare field holds a comma; otherwise the line is skipped. */
  lemma RoundTripExactly(r: OfficeHour)
    requires '"' !in r.year && '"' !in r.semester && '"' !in r.selectedDays
    ensures DecodeLine(EncodeLine(r)) == Some(r) <==> ',' !in r.year && ',' !in r.semester
    ensures DecodeLine(EncodeLine(r)) != Some(r) ==> DecodeLine(EncodeLine(r)) == None
  {
    var q := "\"" + r.selectedDays + "\"";
    var head := r.year + "," + r.semester + ",";
    assert EncodeLine(r) == head + q;
    CountOfAbsent(r.year + ",", '"');
    CountOfAppend(r.year + ",", r.semester, '"');
    CountOfAbsent(r.semester, '"');
    CountOfAppend(r.year + "," + r.semester, ",", '"');
    assert '"' !in head by {
      CountOfNonZero(head, '"');
    }
    CountOfAbsent(r.selectedDays, '"');
    CountOfAppend("\"", r.selectedDays, '"');
    CountOfAppend("\"" + r.selectedDays, "\"", '"');
    SeparatorCountAppend(head, q);
    QuotedHasNoSeparator(r.selectedDays);
    SeparatorCountNone(q);
    CountOfAppend(r.year, ",", ',');
    CountOfAppend(r.year + ",", r.semester, ',');
    CountOfAppend(r.year + "," + r.semester, ",", ',');
    CountOfNonZero(r.year, ',');
    CountOfNonZero(r.semester, ',');
    if ',' !in r.year && ',' !in r.semester {
      RoundTrip(r);
    }
  }
}
