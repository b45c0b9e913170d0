/** The display order of the loaded entries: the comparator handed to
    `List.sort` (newest year first, then the semester rank), and the stable
    sort that `List.sort` performs with it. */
module Ordering {
  import opened JavaText
  import opened Records

  /** The rank of a trimmed semester name: Spring 4, Summer 3, Fall 2,
      Winter 1, anything else 0. */
  function NameRank(name: string): (rank: int)
    ensures 0 <= rank <= 4
    ensures rank == 0 <==> name !in Semesters
    ensures rank > 0 ==> Semesters[4 - rank] == name
  {
    if name == "Spring" then 4
    else if name == "Summer" then 3
    else if name == "Fall" then 2
    else if name == "Winter" then 1
    else 0
  }

  /** TrackSemester: the rank of a semester name once surrounding blanks are trimmed. */
  function SemesterRank(semester: string): (rank: int)
    ensures 0 <= rank <= 4
    ensures rank == 0 <==> Trim(semester) !in Semesters
    ensures rank > 0 ==> Semesters[4 - rank] == Trim(semester)
  {
    NameRank(Trim(semester))
  }

  /** Blanks and control characters around the name do not change its rank. */
  lemma RankIgnoresPadding(pre: string, semester: string, post: string)
    requires forall i :: 0 <= i < |pre| ==> IsTrimmable(pre[i])
    requires forall i :: 0 <= i < |post| ==> IsTrimmable(post[i])
    ensures SemesterRank(pre + semester + post) == SemesterRank(semester)
  {
    TrimIgnoresPadding(pre, semester, post);
  }

  /** The drop-down items rank Spring 4, Summer 3, Fall 2, Winter 1: the
      order the drop-down lists them, highest first. */
  lemma RankOfSemester(i: nat)
    requires i < 4
    ensures SemesterRank(Semesters[i]) == 4 - i
  {
    var name := Semesters[i];
    assert name[0] != ' ' && name[|name| - 1] != ' ';
    TrimUnpadded(name);
  }

  /** `Integer.parseInt(year)` as the comparator uses it. A year that does not
      parse throws; the load models that outcome before any comparison is
      made, so the 0 here is never compared. */
  function YearValue(r: OfficeHour): int {
    match ParseInt(r.year)
    case Some(v) => v
    case None => 0
  }

  /** What the comparator looks at: the year's value and the semester's rank. */
  datatype SortKey = SortKey(year: int, rank: int)

  function Key(r: OfficeHour): SortKey {
    SortKey(YearValue(r), SemesterRank(r.semester))
  }

  /** `Integer.compare`. */
  function IntegerCompare(x: int, y: int): (c: int)
    ensures -1 <= c <= 1
    ensures c < 0 <==> x < y
    ensures c == 0 <==> x == y
  {
    if x < y then -1 else if x == y then 0 else 1
  }

  /** The comparator: a later year first; within a year, a higher semester rank first. */
  function Compare(o1: OfficeHour, o2: OfficeHour): (c: int)
    ensures c == KeyCompare(Key(o1), Key(o2))
  {
    var y1 := YearValue(o1);
    var y2 := YearValue(o2);
    if y1 != y2 then IntegerCompare(y2, y1)
    else IntegerCompare(SemesterRank(o2.semester), SemesterRank(o1.semester))
  }

  /** The comparator on the two keys it looks at. */
  function KeyCompare(k1: SortKey, k2: SortKey): (c: int)
    ensures c <= 0 <==> Precedes(k1, k2)
    ensures c < 0 <==> !Precedes(k2, k1)
    ensures c == 0 <==> k1 == k2
  {
    if k1.year != k2.year then IntegerCompare(k2.year, k1.year) else IntegerCompare(k2.rank, k1.rank)
  }

  /** k1 may stand before k2 in display order: a later year, or the same year
      and a semester ranked at least as high. */
  predicate Precedes(k1: SortKey, k2: SortKey) {
    k1.year > k2.year || (k1.year == k2.year && k1.rank >= k2.rank)
  }

  /** The comparator is a total preorder, as `List.sort` demands: reflexive,
      sign-antisymmetric, total and transitive; equal keys compare alike. */
  lemma KeyCompareIsTotalPreorder(a: SortKey, b: SortKey, c: SortKey)
    ensures KeyCompare(a, a) == 0
    ensures KeyCompare(a, b) < 0 <==> KeyCompare(b, a) > 0
    ensures KeyCompare(a, b) <= 0 || KeyCompare(b, a) <= 0
    ensures KeyCompare(a, b) <= 0 && KeyCompare(b, c) <= 0 ==> KeyCompare(a, c) <= 0
    ensures KeyCompare(a, b) == 0 ==> (KeyCompare(a, c) < 0 <==> KeyCompare(b, c) < 0)
  {
  }

  /** In display order under `key`: no element is preceded by one that compares after it. */
  predicate Sorted<T>(key: T -> SortKey, s: seq<T>) {
    forall i, j :: 0 <= i < j < |s| ==> Precedes(key(s[i]), key(s[j]))
  }

  /** Put x into a sorted list after every element that does not compare after it. */
  function Insert<T>(key: T -> SortKey, x: T, s: seq<T>): (r: seq<T>)
    requires Sorted(key, s)
    ensures Sorted(key, r)
    ensures multiset(r) == multiset(s) + multiset{x}
  {
    if s == [] then [x]
    else if KeyCompare(key(x), key(s[0])) < 0 then
      [x] + s
    else
      var rest := Insert(key, x, s[1..]);
      assert s == [s[0]] + s[1..];
      InsertHeadFirst(key, x, s, rest);
      [s[0]] + rest
  }

  lemma InsertHeadFirst<T>(key: T -> SortKey, x: T, s: seq<T>, rest: seq<T>)
    requires s != [] && Sorted(key, s)
    requires Precedes(key(s[0]), key(x))
    requires multiset(rest) == multiset(s[1..]) + multiset{x}
    ensures forall j :: 0 <= j < |rest| ==> Precedes(key(s[0]), key(rest[j]))
  {
    forall j | 0 <= j < |rest|
      ensures Precedes(key(s[0]), key(rest[j]))
    {
      assert rest[j] in multiset(rest);
      if rest[j] != x {
        assert rest[j] in multiset(s[1..]);
        var i :| 0 <= i < |s[1..]| && s[1..][i] == rest[j];
        assert s[i + 1] == rest[j];
      }
    }
  }

  /** `list.sort(comparator)`: a stable sort, modelled as insertion of each
      element, in list order, into the sorted list of those before it. */
  function StableSort<T>(key: T -> SortKey, s: seq<T>): (r: seq<T>)
    ensures Sorted(key, r)
    ensures multiset(r) == multiset(s)
  {
    if s == [] then []
    else
      assert s == s[..|s| - 1] + [s[|s| - 1]];
      Insert(key, s[|s| - 1], StableSort(key, s[..|s| - 1]))
  }

  /** The elements of s whose key is k, in the order s has them. */
  function WithKey<T>(key: T -> SortKey, s: seq<T>, k: SortKey): seq<T> {
    if s == [] then []
    else WithKey(key, s[..|s| - 1], k) + (if key(s[|s| - 1]) == k then [s[|s| - 1]] else [])
  }

  lemma {:induction false} WithKeyAppend<T>(key: T -> SortKey, a: seq<T>, b: seq<T>, k: SortKey)
    ensures WithKey(key, a + b, k) == WithKey(key, a, k) + WithKey(key, b, k)
    decreases |b|
  {
    if b == [] {
      assert a + b == a;
    } else {
      var init := b[..|b| - 1];
      assert (a + b)[..|a + b| - 1] == a + init;
      WithKeyAppend(key, a, init, k);
    }
  }

  lemma {:induction false} WithKeyNone<T>(key: T -> SortKey, s: seq<T>, k: SortKey)
    requires forall j :: 0 <= j < |s| ==> key(s[j]) != k
    ensures WithKey(key, s, k) == []
  {
    if s != [] {
      WithKeyNone(key, s[..|s| - 1], k);
    }
  }

  /** Inserting x keeps the elements of every key in order and puts x after those of its own key. */
  lemma {:induction false} InsertIsStable<T>(key: T -> SortKey, x: T, s: seq<T>, k: SortKey)
    requires Sorted(key, s)
    ensures WithKey(key, Insert(key, x, s), k) == WithKey(key, s, k) + (if key(x) == k then [x] else [])
  {
    if s == [] {
      assert [x][..0] == [];
    } else if KeyCompare(key(x), key(s[0])) < 0 {
      InsertInFront(key, x, s, k);
    } else {
      InsertIsStable(key, x, s[1..], k);
      PrependKeepsSuffix(key, s[0], Insert(key, x, s[1..]), s[1..], if key(x) == k then [x] else [], k);
      assert [s[0]] + s[1..] == s;
    }
  }

  lemma InsertInFront<T>(key: T -> SortKey, x: T, s: seq<T>, k: SortKey)
    requires Sorted(key, s) && s != []
    requires !Precedes(key(s[0]), key(x))
    ensures WithKey(key, [x] + s, k) == WithKey(key, s, k) + (if key(x) == k then [x] else [])
  {
    WithKeyAppend(key, [x], s, k);
    assert [x][..0] == [];
    assert WithKey(key, [x], k) == (if key(x) == k then [x] else []);
    if key(x) == k {
      WithKeyNone(key, s, k);
    }
  }

  /** Putting the same element in front of two lists whose elements of key k differ by a suffix keeps that suffix. */
  lemma PrependKeepsSuffix<T>(key: T -> SortKey, y: T, rest: seq<T>, tail: seq<T>, own: seq<T>, k: SortKey)
    requires WithKey(key, rest, k) == WithKey(key, tail, k) + own
    ensures WithKey(key, [y] + rest, k) == WithKey(key, [y] + tail, k) + own
  {
    WithKeyAppend(key, [y], rest, k);
    WithKeyAppend(key, [y], tail, k);
  }

  /** Stability: elements that compare equal keep the order they had. */
  lemma {:induction false} StableSortIsStable<T>(key: T -> SortKey, s: seq<T>, k: SortKey)
    ensures WithKey(key, StableSort(key, s), k) == WithKey(key, s, k)
  {
    if s != [] {
      var init := s[..|s| - 1];
      StableSortIsStable(key, init, k);
      InsertIsStable(key, s[|s| - 1], StableSort(key, init), k);
    }
  }

  /** Sorting loses no element. */
  lemma StableSortKeeps<T>(key: T -> SortKey, s: seq<T>, x: T)
    requires x in s
    ensures x in StableSort(key, s)
  {
    assert x in multiset(s);
  }

  /** A list of fewer than two elements is left as it is. */
  lemma StableSortShort<T>(key: T -> SortKey, s: seq<T>)
    requires |s| < 2
    ensures StableSort(key, s) == s
  {
    if |s| == 1 {
      assert s[..0] == [];
    }
  }
}
