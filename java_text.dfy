/** Character-level text helpers, and the pieces of the Java standard library
    whose behaviour the controller relies on, stated character by character:
    the `\d` class of java.util.regex, String.trim and Integer.parseInt. */
module JavaText {

  datatype Option<T> = None | Some(value: T)

  /** How many times `c` occurs in `s`. */
  function CountOf(s: string, c: char): nat {
    if s == [] then 0 else (if s[0] == c then 1 else 0) + CountOf(s[1..], c)
  }

  lemma {:induction false} CountOfAppend(a: string, b: string, c: char)
    ensures CountOf(a + b, c) == CountOf(a, c) + CountOf(b, c)
  {
    if a != [] {
      assert (a + b)[1..] == a[1..] + b;
      CountOfAppend(a[1..], b, c);
    } else {
      assert a + b == b;
    }
  }

  lemma {:induction false} CountOfAbsent(s: string, c: char)
    requires c !in s
    ensures CountOf(s, c) == 0
  {
    if s != [] {
      CountOfAbsent(s[1..], c);
    }
  }

  lemma {:induction false} CountOfNonZero(s: string, c: char)
    ensures c in s <==> CountOf(s, c) > 0
  {
    if s != [] {
      CountOfNonZero(s[1..], c);
      assert s == [s[0]] + s[1..];
    }
  }

  /** The pieces joined with `sep` between each two of them. */
  function Join(pieces: seq<string>, sep: string): string {
    if |pieces| == 0 then ""
    else if |pieces| == 1 then pieces[0]
    else pieces[0] + sep + Join(pieces[1..], sep)
  }

  /** Joining one more piece puts one more separator in front of it. */
  lemma {:induction false} JoinSnoc(pieces: seq<string>, last: string, sep: string)
    requires pieces != []
    ensures Join(pieces + [last], sep) == Join(pieces, sep) + sep + last
  {
    if |pieces| == 1 {
      assert pieces + [last] == [pieces[0], last];
    } else {
      assert (pieces + [last])[1..] == pieces[1..] + [last];
      JoinSnoc(pieces[1..], last, sep);
    }
  }

  /** A character that occurs neither in the pieces nor in the separator does not occur in the join. */
  lemma {:induction false} JoinAvoids(pieces: seq<string>, sep: string, c: char)
    requires forall i :: 0 <= i < |pieces| ==> c !in pieces[i]
    requires c !in sep
    ensures c !in Join(pieces, sep)
  {
    if |pieces| > 1 {
      JoinAvoids(pieces[1..], sep, c);
    }
  }

  /** `\d` without UNICODE_CHARACTER_CLASS: the ASCII digits only. */
  predicate IsDigit(c: char) {
    '0' <= c <= '9'
  }

  /** The text matches `\d*`. */
  predicate AllDigits(s: string) {
    forall i :: 0 <= i < |s| ==> IsDigit(s[i])
  }

  /** The text matches `\d{4}`. */
  predicate IsFourDigits(s: string) {
    |s| == 4 && AllDigits(s)
  }

  /** The text that `replaceAll("[^\\d]", "")` leaves: the digits of `s`, in order. */
  function RemoveNonDigits(s: string): (r: string)
    ensures AllDigits(r)
    ensures |r| <= |s|
  {
    if s == [] then []
    else (if IsDigit(s[0]) then [s[0]] else []) + RemoveNonDigits(s[1..])
  }

  lemma {:induction false} RemoveNonDigitsKeepsDigits(s: string)
    requires AllDigits(s)
    ensures RemoveNonDigits(s) == s
  {
    if s != [] {
      RemoveNonDigitsKeepsDigits(s[1..]);
    }
  }

  /** Removing the non-digits works piece by piece: it distributes over concatenation. */
  lemma {:induction false} RemoveNonDigitsAppend(a: string, b: string)
    ensures RemoveNonDigits(a + b) == RemoveNonDigits(a) + RemoveNonDigits(b)
  {
    if a != [] {
      assert (a + b)[1..] == a[1..] + b;
      RemoveNonDigitsAppend(a[1..], b);
    } else {
      assert a + b == b;
    }
  }

  /** A character survives the filter exactly when it is a digit of the input. */
  lemma {:induction false} RemoveNonDigitsMembers(s: string, c: char)
    ensures c in RemoveNonDigits(s) <==> c in s && IsDigit(c)
  {
    if s != [] {
      RemoveNonDigitsMembers(s[1..], c);
      assert s == [s[0]] + s[1..];
    }
  }

  /** The characters String.trim removes: everything up to and including U+0020. */
  predicate IsTrimmable(c: char) {
    c <= ' '
  }

  function TrimStart(s: string): (r: string)
    ensures |r| <= |s| && r == s[|s| - |r|..]
    ensures r == [] || !IsTrimmable(r[0])
    ensures forall i :: 0 <= i < |s| - |r| ==> IsTrimmable(s[i])
  {
    if s != [] && IsTrimmable(s[0]) then TrimStart(s[1..]) else s
  }

  function TrimEnd(s: string): (r: string)
    ensures |r| <= |s| && r == s[..|r|]
    ensures r == [] || !IsTrimmable(r[|r| - 1])
    ensures forall i :: |r| <= i < |s| ==> IsTrimmable(s[i])
  {
    if s != [] && IsTrimmable(s[|s| - 1]) then TrimEnd(s[..|s| - 1]) else s
  }

  /** String.trim: strip every leading and trailing character up to U+0020. */
  function Trim(s: string): (r: string)
    ensures r == [] || (!IsTrimmable(r[0]) && !IsTrimmable(r[|r| - 1]))
    ensures exists i :: 0 <= i <= |s| - |r| && s[i..][..|r|] == r
              && (forall j :: 0 <= j < i ==> IsTrimmable(s[j]))
              && (forall j :: i + |r| <= j < |s| ==> IsTrimmable(s[j]))
  {
    var t := TrimStart(s);
    var i := |s| - |t|;
    var r := TrimEnd(t);
    assert s[i..][..|r|] == r;
    r
  }

  /** A text that neither starts nor ends with a trimmable character is its own trim. */
  lemma TrimUnpadded(s: string)
    requires s == [] || (!IsTrimmable(s[0]) && !IsTrimmable(s[|s| - 1]))
    ensures Trim(s) == s
  {
  }

  /** Surrounding blanks and control characters do not change what trim yields. */
  lemma {:induction false} TrimIgnoresPadding(pre: string, s: string, post: string)
    requires forall i :: 0 <= i < |pre| ==> IsTrimmable(pre[i])
    requires forall i :: 0 <= i < |post| ==> IsTrimmable(post[i])
    ensures Trim(pre + s + post) == Trim(s)
  {
    if pre != [] {
      assert (pre + s + post)[1..] == pre[1..] + s + post;
      TrimIgnoresPadding(pre[1..], s, post);
    } else if post != [] {
      assert pre + s + post == s + post;
      TrimStartOfPadded(s, post);
      if TrimStart(s) != [] {
        TrimEndIgnoresPadding(TrimStart(s), post);
      }
    } else {
      assert pre + s + post == s;
    }
  }

  lemma {:induction false} TrimStartOfPadded(s: string, post: string)
    requires forall i :: 0 <= i < |post| ==> IsTrimmable(post[i])
    ensures TrimStart(s) != [] ==> TrimStart(s + post) == TrimStart(s) + post
    ensures TrimStart(s) == [] ==> TrimStart(s + post) == []
  {
    if s != [] {
      if IsTrimmable(s[0]) {
        assert (s + post)[1..] == s[1..] + post;
        TrimStartOfPadded(s[1..], post);
      }
    } else {
      assert s + post == post;
      TrimStartOfPadding(post);
    }
  }

  lemma {:induction false} TrimStartOfPadding(s: string)
    requires forall i :: 0 <= i < |s| ==> IsTrimmable(s[i])
    ensures TrimStart(s) == []
  {
    if s != [] {
      TrimStartOfPadding(s[1..]);
    }
  }

  lemma {:induction false} TrimEndIgnoresPadding(s: string, post: string)
    requires forall i :: 0 <= i < |post| ==> IsTrimmable(post[i])
    ensures TrimEnd(s + post) == TrimEnd(s)
  {
    if post != [] {
      var shorter := post[..|post| - 1];
      assert (s + post)[..|s + post| - 1] == s + shorter;
      TrimEndIgnoresPadding(s, shorter);
    } else {
      assert s + post == s;
    }
  }

  const MinInt: int := -0x8000_0000
  const MaxInt: int := 0x7FFF_FFFF

  function DigitValue(c: char): (d: nat)
    requires IsDigit(c)
    ensures d <= 9
  {
    (c as int) - ('0' as int)
  }

  /** The decimal value of a string of ASCII digits, most significant first. */
  function DigitsValue(s: string): (v: nat)
    requires AllDigits(s)
  {
    if s == [] then 0 else 10 * DigitsValue(s[..|s| - 1]) + DigitValue(s[|s| - 1])
  }

  /** A value of n digits is below 10^n. */
  lemma {:induction false} DigitsValueBound(s: string)
    requires AllDigits(s)
    ensures DigitsValue(s) < Pow10(|s|)
  {
    if s != [] {
      DigitsValueBound(s[..|s| - 1]);
    }
  }

  function Pow10(n: nat): (p: nat)
    ensures p >= 1
  {
    if n == 0 then 1 else 10 * Pow10(n - 1)
  }

  /** Integer.parseInt(s): an optional '+' or '-', then at least one digit, and a
      value in the 32-bit range; every other text throws NumberFormatException,
      which is None here. */
  function ParseInt(s: string): (r: Option<int>)
    ensures r.Some? ==> MinInt <= r.value <= MaxInt
    ensures r.Some? ==> |s| > 0
  {
    if s == [] then None
    else
      var body := if s[0] == '-' || s[0] == '+' then s[1..] else s;
      if body == [] || !AllDigits(body) then None
      else
        var v: int := if s[0] == '-' then -(DigitsValue(body) as int) else DigitsValue(body) as int;
        if MinInt <= v <= MaxInt then Some(v) else None
  }

  /** The value of an int text: a sign, if any, then the decimal value of the digits. */
  function SignedValue(sign: string, digits: string): int
    requires AllDigits(digits)
  {
    if sign == "-" then -(DigitsValue(digits) as int) else DigitsValue(digits) as int
  }

  /** A text of an optional sign and at least one digit parses to its value
      exactly when that value fits in an int; otherwise it throws. */
  lemma ParseIntOfNumeral(sign: string, digits: string)
    requires sign == "" || sign == "-" || sign == "+"
    requires digits != [] && AllDigits(digits)
    ensures MinInt <= SignedValue(sign, digits) <= MaxInt ==> ParseInt(sign + digits) == Some(SignedValue(sign, digits))
    ensures !(MinInt <= SignedValue(sign, digits) <= MaxInt) ==> ParseInt(sign + digits) == None
  {
    var s := sign + digits;
    if sign == "" {
      assert s == digits;
      assert s[0] != '-' && s[0] != '+';
    } else {
      assert s[0] == sign[0] && s[1..] == digits;
    }
  }

  /** A character other than a digit, except a sign in front, makes the text throw. */
  lemma ParseIntRejectsNonDigit(s: string, i: nat)
    requires i < |s| && !IsDigit(s[i])
    requires i > 0 || (s[i] != '-' && s[i] != '+')
    ensures ParseInt(s) == None
  {
    if i > 0 && (s[0] == '-' || s[0] == '+') {
      assert s[1..][i - 1] == s[i];
    }
  }

  /** The empty text and a lone sign hold no digit and throw. */
  lemma ParseIntRejectsNoDigits(s: string)
    requires s == "" || s == "-" || s == "+"
    ensures ParseInt(s) == None
  {
    if s != "" {
      assert s[1..] == [];
    }
  }

  /** A four-digit year always parses, to its decimal value, a number below 10000. */
  lemma FourDigitsParse(s: string)
    requires IsFourDigits(s)
    ensures ParseInt(s) == Some(DigitsValue(s))
    ensures 0 <= DigitsValue(s) <= 9999
  {
    DigitsValueBound(s);
    assert Pow10(4) == 10000;
    assert s[0] != '-' && s[0] != '+';
  }
}
