/** Definitions shared by every component: options, duplicate-free sequences and Go's string sort. */
module Common {

  datatype Option<+T> = None | Some(value: T)

  ghost predicate Distinct<T(!new)>(s: seq<T>) {
    forall i, j :: 0 <= i < j < |s| ==> s[i] != s[j]
  }

  function Elems<T>(s: seq<T>): (r: set<T>) {
    set x | x in s
  }

  /** Go's `<` on strings. */
  predicate Less(a: string, b: string) {
    if b == "" then false
    else if a == "" then true
    else if a[0] == b[0] then Less(a[1..], b[1..])
    else a[0] < b[0]
  }

  /** The texts agree up to place `k`, where the first has the smaller character. */
  predicate SmallerAt(a: string, b: string, k: int) {
    0 <= k < |a| && k < |b| && (forall i :: 0 <= i < k ==> a[i] == b[i]) && a[k] < b[k]
  }

  /** A text comes before another when it is its beginning, or has the smaller character where they first differ. */
  lemma {:induction false} LessExactly(a: string, b: string)
    ensures Less(a, b) <==> (a <= b && a != b) || exists k :: SmallerAt(a, b, k)
  {
    if a == "" || b == "" {
    } else if a[0] == b[0] {
      LessExactly(a[1..], b[1..]);
      assert a == [a[0]] + a[1..] && b == [b[0]] + b[1..];
      forall k
        ensures SmallerAt(a[1..], b[1..], k) ==> SmallerAt(a, b, k + 1)
        ensures SmallerAt(a, b, k) ==> SmallerAt(a[1..], b[1..], k - 1)
      {
        SmallerNext(a, b, k);
        SmallerNext(a, b, k - 1);
      }
      hide SmallerAt;
      assert a <= b <==> a[1..] <= b[1..];
      if k :| SmallerAt(a[1..], b[1..], k) {
        assert SmallerAt(a, b, k + 1);
      }
      if k :| SmallerAt(a, b, k) {
        assert SmallerAt(a[1..], b[1..], k - 1);
      }
    } else {
      assert SmallerAt(a, b, 0) <==> a[0] < b[0];
    }
  }

  lemma SmallerNext(a: string, b: string, k: int)
    requires a != "" && b != "" && a[0] == b[0]
    ensures SmallerAt(a[1..], b[1..], k) <==> k >= 0 && SmallerAt(a, b, k + 1)
    ensures !SmallerAt(a, b, 0)
  {
    if k >= 0 && SmallerAt(a, b, k + 1) {
      assert forall i :: 0 <= i < k ==> a[1..][i] == a[i + 1] && b[1..][i] == b[i + 1];
    }
    if SmallerAt(a[1..], b[1..], k) {
      assert forall i :: 0 < i <= k ==> a[i] == a[1..][i - 1] && b[i] == b[1..][i - 1];
    }
  }

  ghost predicate Ascending(s: seq<string>) {
    forall i, j :: 0 <= i < j < |s| ==> !Less(s[j], s[i])
  }

  lemma {:induction false} LessTransitive(a: string, b: string, c: string)
    requires !Less(b, a) && !Less(c, b)
    ensures !Less(c, a)
  {
    if a == "" || b == "" || c == "" || a[0] != b[0] || b[0] != c[0] {
    } else {
      LessTransitive(a[1..], b[1..], c[1..]);
    }
  }

  lemma {:induction false} LessAsymmetric(a: string, b: string)
    requires Less(a, b)
    ensures !Less(b, a)
  {
    if a == "" || b == "" || a[0] != b[0] {
    } else {
      LessAsymmetric(a[1..], b[1..]);
    }
  }

  lemma {:induction false} LessTotal(a: string, b: string)
    requires !Less(a, b) && !Less(b, a)
    ensures a == b
  {
    if a == "" || b == "" {
    } else {
      LessTotal(a[1..], b[1..]);
      assert a == [a[0]] + a[1..] && b == [b[0]] + b[1..];
    }
  }

  lemma {:induction false} LessSelf(a: string)
    ensures !Less(a, a)
  {
    if a == "" {
    } else {
      LessSelf(a[1..]);
    }
  }

  lemma LessIsOrder()
    ensures WeakOrder(Less)
  {
    forall a, b | Less(a, b)
      ensures !Less(b, a)
    {
      LessAsymmetric(a, b);
    }
    forall a, b, c | !Less(b, a) && !Less(c, b)
      ensures !Less(c, a)
    {
      LessTransitive(a, b, c);
    }
  }

  /** sort.Strings. */
  method SortStrings(s: seq<string>) returns (r: seq<string>)
    ensures multiset(r) == multiset(s)
    ensures Ascending(r)
  {
    r := SortBy(Less, s);
    LessIsOrder();
    SortedSorts(Less, s);
  }

  /* ---- Sorting: sort.SliceStable as an insertion sort ---- */

  function Inserted<T>(before: (T, T) -> bool, sorted: seq<T>, x: T): (r: seq<T>)
    ensures |r| == |sorted| + 1
  {
    if sorted == [] || before(x, sorted[0]) then [x] + sorted else [sorted[0]] + Inserted(before, sorted[1..], x)
  }

  function Sorted<T>(before: (T, T) -> bool, s: seq<T>): (r: seq<T>)
    ensures |r| == |s|
  {
    if s == [] then [] else Inserted(before, Sorted(before, s[..|s| - 1]), s[|s| - 1])
  }

  ghost predicate InOrder<T>(before: (T, T) -> bool, s: seq<T>) {
    forall i, j :: 0 <= i < j < |s| ==> !before(s[j], s[i])
  }

  ghost predicate WeakOrder<T(!new)>(before: (T, T) -> bool) {
    && (forall a, b :: before(a, b) ==> !before(b, a))
    && (forall a, b, c :: !before(b, a) && !before(c, b) ==> !before(c, a))
  }

  lemma {:induction false} InsertedKeeps<T>(before: (T, T) -> bool, sorted: seq<T>, x: T)
    ensures multiset(Inserted(before, sorted, x)) == multiset(sorted) + multiset{x}
  {
    if sorted == [] {
    } else if !before(x, sorted[0]) {
      InsertedKeeps(before, sorted[1..], x);
      assert sorted == [sorted[0]] + sorted[1..];
    }
  }

  lemma {:induction false} InsertedSorts<T(!new)>(before: (T, T) -> bool, sorted: seq<T>, x: T)
    requires WeakOrder(before) && InOrder(before, sorted)
    ensures InOrder(before, Inserted(before, sorted, x))
  {
    if sorted == [] {
    } else if before(x, sorted[0]) {
      assert forall j :: 0 < j < |sorted| ==> !before(sorted[j], sorted[0]);
    } else {
      InsertedSorts(before, sorted[1..], x);
      InsertedKeeps(before, sorted[1..], x);
      var rest := Inserted(before, sorted[1..], x);
      forall j | 0 <= j < |rest|
        ensures !before(rest[j], sorted[0])
      {
        assert rest[j] in multiset(rest);
        assert rest[j] == x || rest[j] in sorted[1..];
      }
    }
  }

  /** A sorted sequence has the same elements, in order. */
  lemma {:induction false} SortedSorts<T(!new)>(before: (T, T) -> bool, s: seq<T>)
    requires WeakOrder(before)
    ensures multiset(Sorted(before, s)) == multiset(s)
    ensures InOrder(before, Sorted(before, s))
  {
    hide Inserted;
    if s == [] {
    } else {
      var front, last := s[..|s| - 1], s[|s| - 1];
      SortedSorts(before, front);
      InsertedKeeps(before, Sorted(before, front), last);
      InsertedSorts(before, Sorted(before, front), last);
      assert s == front + [last];
    }
  }

  method SortBy<T>(before: (T, T) -> bool, s: seq<T>) returns (r: seq<T>)
    ensures r == Sorted(before, s)
  {
    r := [];
    for i := 0 to |s|
      invariant r == Sorted(before, s[..i])
    {
      assert s[..i + 1][..i] == s[..i];
      r := InsertInOrder(before, r, s[i]);
    }
    assert s[..|s|] == s;
  }

  /** Walks past everything that `x` does not come before. */
  method InsertInOrder<T>(before: (T, T) -> bool, s: seq<T>, x: T) returns (r: seq<T>)
    ensures r == Inserted(before, s, x)
  {
    var front, rest := [], s;
    while rest != [] && !before(x, rest[0])
      invariant Inserted(before, s, x) == front + Inserted(before, rest, x)
      decreases |rest|
    {
      Appends(front, rest[0], Inserted(before, rest[1..], x));
      front, rest := front + [rest[0]], rest[1..];
    }
    r := front + [x] + rest;
    Appends(front, x, rest);
  }

  lemma Concatenates<T>(a: seq<T>, b: seq<T>, c: seq<T>)
    ensures (a + b) + c == a + (b + c)
  {
  }

  lemma Appends<T>(front: seq<T>, x: T, rest: seq<T>)
    ensures front + ([x] + rest) == front + [x] + rest
  {
  }

  lemma Without<T>(s: seq<T>, k: nat)
    requires k < |s|
    ensures multiset(s[..k] + s[k + 1..]) == multiset(s) - multiset{s[k]}
  {
    assert s == s[..k] + [s[k]] + s[k + 1..];
  }

  lemma Twice<T>(s: seq<T>, i: nat, j: nat)
    requires i < j < |s|
    ensures s[i] == s[j] ==> multiset(s)[s[i]] >= 2
  {
    assert s == s[..i] + [s[i]] + s[i + 1..j] + [s[j]] + s[j + 1..];
  }

  lemma Once<T(!new)>(s: seq<T>, p: nat)
    requires p < |s| && Distinct(s)
    ensures multiset(s)[s[p]] == 1
  {
    assert s == s[..p] + [s[p]] + s[p + 1..];
    assert s[p] !in s[..p] && s[p] !in s[p + 1..];
  }

  ghost predicate DistinctBy<T, K>(key: T -> K, s: seq<T>) {
    forall i, j :: 0 <= i < j < |s| ==> key(s[i]) != key(s[j])
  }

  /** Distinct keys stay distinct in any order. */
  lemma DistinctInAnyOrder<T(!new), K>(key: T -> K, s: seq<T>, t: seq<T>)
    requires multiset(s) == multiset(t) && DistinctBy(key, s)
    ensures DistinctBy(key, t)
  {
    forall i, j | 0 <= i < j < |t|
      ensures key(t[i]) != key(t[j])
    {
      assert t[i] in multiset(t) && t[j] in multiset(t);
      var p :| 0 <= p < |s| && s[p] == t[i];
      var q :| 0 <= q < |s| && s[q] == t[j];
      Twice(t, i, j);
      Once(s, p);
      assert p != q;
    }
  }

  lemma SubsetSize<T>(a: set<T>, b: set<T>)
    requires a <= b
    ensures |a| <= |b|
  {
    assert b == a + (b - a);
  }

  lemma SameElements(a: seq<string>, b: seq<string>)
    requires multiset(a) == multiset(b)
    ensures Elems(a) == Elems(b)
  {
    forall x
      ensures x in a <==> x in b
    {
      assert x in a <==> x in multiset(a);
      assert x in b <==> x in multiset(b);
    }
  }

  /** unicode.IsSpace. */
  predicate Space(c: char) {
    var n := c as int;
    || 9 <= n <= 13 || n == 32 || n == 0x85 || n == 0xA0 || n == 0x1680 || 0x2000 <= n <= 0x200A
    || n == 0x2028 || n == 0x2029 || n == 0x202F || n == 0x205F || n == 0x3000
  }

  /** strings.TrimSpace. */
  function Trim(s: string): string {
    if s == "" then ""
    else if Space(s[0]) then Trim(s[1..])
    else if Space(s[|s| - 1]) then Trim(s[..|s| - 1])
    else s
  }

  /** Nothing but white space. */
  predicate Blank(s: string) {
    forall i :: 0 <= i < |s| ==> Space(s[i])
  }

  /** The white space a text begins with, and the text without it. */
  function Leading(s: string): string {
    if s != "" && Space(s[0]) then [s[0]] + Leading(s[1..]) else ""
  }

  function TrimLeft(s: string): string {
    if s != "" && Space(s[0]) then TrimLeft(s[1..]) else s
  }

  /** The white space a text ends with, and the text without it. */
  function Trailing(s: string): string {
    if s != "" && Space(s[|s| - 1]) then Trailing(s[..|s| - 1]) + [s[|s| - 1]] else ""
  }

  function TrimRight(s: string): string {
    if s != "" && Space(s[|s| - 1]) then TrimRight(s[..|s| - 1]) else s
  }

  /** strconv.Itoa. */
  function Decimal(n: int): string
    decreases if n < 0 then 1 - n else n
  {
    if n < 0 then "-" + Decimal(-n)
    else if n < 10 then [Digit(n)]
    else Decimal(n / 10) + [Digit(n % 10)]
  }

  function Digit(d: nat): char
    requires d < 10
  {
    '0' + d as char
  }

  lemma DecimalSize(a: nat)
    ensures |Decimal(a)| == 1 <==> a < 10
  {
    if a >= 10 {
      assert |Decimal(a / 10)| > 0;
    }
  }

  /** Different numbers print differently. */
  lemma {:induction false} DecimalInjective(a: nat, b: nat)
    requires Decimal(a) == Decimal(b)
    ensures a == b
    decreases a
  {
    DecimalSize(a);
    DecimalSize(b);
    if a < 10 {
    } else {
      var p, q := Decimal(a / 10), Decimal(b / 10);
      assert p == (p + [Digit(a % 10)])[..|p|] && q == (q + [Digit(b % 10)])[..|q|];
      assert Decimal(a)[|Decimal(a)| - 1] == Digit(a % 10);
      DecimalInjective(a / 10, b / 10);
    }
  }

  /** The number that digits print. */
  function Value(s: string): int {
    if s == "" then 0 else 10 * Value(s[..|s| - 1]) + (s[|s| - 1] as int - '0' as int)
  }

  /** A number prints as its digits, without a leading 0. */
  lemma {:induction false} DecimalExactly(n: nat)
    ensures var s := Decimal(n);
            && Value(s) == n && (forall i :: 0 <= i < |s| ==> '0' <= s[i] <= '9')
            && s != "" && (n > 0 ==> s[0] != '0') && (n == 0 ==> s == "0")
  {
    if n < 10 {
      assert Decimal(n)[..0] == "";
    } else {
      DecimalExactly(n / 10);
      assert Decimal(n)[..|Decimal(n)| - 1] == Decimal(n / 10);
    }
  }

  /** Trimming takes white space off both ends and nothing else. */
  lemma {:induction false} TrimExactly(s: string) returns (before: string, after: string)
    ensures s == before + Trim(s) + after && Blank(before) && Blank(after)
    ensures Trim(s) != "" ==> !Space(Trim(s)[0]) && !Space(Trim(s)[|Trim(s)| - 1])
  {
    hide Space;
    if s == "" {
      before, after := "", "";
    } else if Space(s[0]) {
      before, after := TrimExactly(s[1..]);
      assert s == [s[0]] + s[1..];
      before := [s[0]] + before;
    } else if Space(s[|s| - 1]) {
      before, after := TrimExactly(s[..|s| - 1]);
      assert s == s[..|s| - 1] + [s[|s| - 1]];
      after := after + [s[|s| - 1]];
    } else {
      before, after := "", "";
    }
  }
}
