/**
 * Strings as sequences of characters: the lexicographic order of Rust's
 * `String`, decimal formatting of counts, `join`, and sorting by that order.
 */
module Text {
  /** `a < b` in lexicographic order: a proper prefix comes first, otherwise the first differing character decides. */
  predicate StrLess(a: string, b: string)
    decreases |a|
  {
    if |a| == 0 then |b| > 0
    else if |b| == 0 then false
    else if a[0] != b[0] then a[0] < b[0]
    else StrLess(a[1..], b[1..])
  }

  predicate StrLe(a: string, b: string) {
    a == b || StrLess(a, b)
  }

  lemma {:induction false} StrLessIrreflexive(a: string)
    ensures !StrLess(a, a)
    decreases |a|
  {
    if |a| > 0 {
      StrLessIrreflexive(a[1..]);
    }
  }

  lemma {:induction false} StrLessTransitive(a: string, b: string, c: string)
    requires StrLess(a, b) && StrLess(b, c)
    ensures StrLess(a, c)
    decreases |a|
  {
    if |a| > 0 && a[0] == b[0] && b[0] == c[0] {
      StrLessTransitive(a[1..], b[1..], c[1..]);
    }
  }

  lemma {:induction false} StrLessTotal(a: string, b: string)
    ensures a == b || StrLess(a, b) || StrLess(b, a)
    decreases |a|
  {
    if |a| > 0 && |b| > 0 && a[0] == b[0] {
      StrLessTotal(a[1..], b[1..]);
      if a[1..] == b[1..] {
        assert a == [a[0]] + a[1..] && b == [b[0]] + b[1..];
      }
    }
  }

  lemma StrLessAsymmetric(a: string, b: string)
    requires StrLess(a, b)
    ensures !StrLess(b, a) && a != b
  {
    StrLessIrreflexive(a);
    if StrLess(b, a) {
      StrLessTransitive(a, b, a);
    }
  }

  /**
   * Strings that first differ at position `i` are ordered by that
   * position, whatever follows.
   */
  lemma {:induction false} StrLessAt(a: string, b: string, i: nat)
    requires i < |a| && i < |b| && a[..i] == b[..i] && a[i] < b[i]
    ensures StrLess(a, b)
    decreases i
  {
    if i > 0 {
      assert a[0] == a[..i][0] == b[..i][0] == b[0];
      assert a[1..][..i - 1] == a[1..i] == a[..i][1..] == b[..i][1..] == b[1..][..i - 1];
      StrLessAt(a[1..], b[1..], i - 1);
    }
  }

  /** The character of a decimal digit. */
  function DigitChar(d: nat): (c: char)
    requires d < 10
    ensures '0' <= c <= '9' && c as int - '0' as int == d
  {
    (('0' as int) + d) as char
  }

  /** `format!("{}", n)` for an unsigned integer: decimal, without leading zeros. */
  function NatToString(n: nat): (s: string)
    ensures |s| > 0 && forall i | 0 <= i < |s| :: '0' <= s[i] <= '9'
    ensures |s| > 1 ==> s[0] != '0'
  {
    if n < 10 then [DigitChar(n)] else NatToString(n / 10) + [DigitChar(n % 10)]
  }

  /** The value of a string of decimal digits. */
  function ParseDecimal(s: string): nat
    requires forall i | 0 <= i < |s| :: '0' <= s[i] <= '9'
  {
    if |s| == 0 then 0 else ParseDecimal(s[..|s| - 1]) * 10 + (s[|s| - 1] as int - '0' as int)
  }

  /** Formatting loses nothing: the digits read back to the count. */
  lemma {:induction false} NatToStringRoundTrip(n: nat)
    ensures ParseDecimal(NatToString(n)) == n
  {
    if n >= 10 {
      NatToStringRoundTrip(n / 10);
      var s := NatToString(n);
      assert s[..|s| - 1] == NatToString(n / 10);
    }
  }

  /** Different counts format differently. */
  lemma NatToStringInjective(m: nat, n: nat)
    requires NatToString(m) == NatToString(n)
    ensures m == n
  {
    NatToStringRoundTrip(m);
    NatToStringRoundTrip(n);
  }

  /** `parts.join(sep)`. */
  function Join(parts: seq<string>, sep: string): (s: string) {
    if |parts| == 0 then ""
    else if |parts| == 1 then parts[0]
    else parts[0] + sep + Join(parts[1..], sep)
  }

  /** A joined string starts with its first part. */
  lemma JoinStartsWithFirst(parts: seq<string>, sep: string)
    requires |parts| > 0
    ensures |Join(parts, sep)| >= |parts[0]| && Join(parts, sep)[..|parts[0]|] == parts[0]
  {
    if |parts| > 1 {
      assert Join(parts, sep) == parts[0] + (sep + Join(parts[1..], sep));
    }
  }

  /** Every pair in order. */
  ghost predicate Sorted(s: seq<string>) {
    forall i, j | 0 <= i < j < |s| :: StrLe(s[i], s[j])
  }

  /** Every pair in strict order. */
  ghost predicate StrictlySorted(s: seq<string>) {
    forall i, j | 0 <= i < j < |s| :: StrLess(s[i], s[j])
  }

  /** `x` placed into a sorted sequence before the first element above it. */
  function Insert(x: string, s: seq<string>): (r: seq<string>)
    ensures multiset(r) == multiset(s) + multiset{x}
  {
    if |s| == 0 then [x]
    else if StrLe(x, s[0]) then [x] + s
    else
      assert s == [s[0]] + s[1..];
      [s[0]] + Insert(x, s[1..])
  }

  lemma {:induction false} InsertSorted(x: string, s: seq<string>)
    requires Sorted(s)
    ensures Sorted(Insert(x, s))
  {
    if |s| > 0 && StrLe(x, s[0]) {
      forall k | 0 <= k < |s|
        ensures StrLe(x, s[k])
      {
        if k > 0 && x != s[0] && s[0] != s[k] {
          StrLessTransitive(x, s[0], s[k]);
        }
      }
      SortedCons(x, s);
    } else if |s| > 0 {
      StrLessTotal(x, s[0]);
      InsertSorted(x, s[1..]);
      var r := Insert(x, s[1..]);
      forall k | 0 <= k < |r|
        ensures StrLe(s[0], r[k])
      {
        InsertedBound(x, s, r[k]);
      }
      SortedCons(s[0], r);
    }
  }

  /** Every element of `Insert(x, s[1..])` is at least `s[0]` when `x` is above it. */
  lemma InsertedBound(x: string, s: seq<string>, y: string)
    requires Sorted(s) && |s| > 0 && StrLess(s[0], x)
    requires y in multiset(Insert(x, s[1..]))
    ensures StrLe(s[0], y)
  {
    assert y == x || y in multiset(s[1..]);
    if y != x {
      var m :| 0 <= m < |s[1..]| && s[1..][m] == y;
      assert s[m + 1] == y;
    }
  }

  /** A sorted sequence stays sorted below a lower bound of its elements. */
  lemma SortedCons(h: string, r: seq<string>)
    requires Sorted(r) && forall k | 0 <= k < |r| :: StrLe(h, r[k])
    ensures Sorted([h] + r)
  {
    var t := [h] + r;
    forall i, j | 0 <= i < j < |t|
      ensures StrLe(t[i], t[j])
    {
      if i == 0 {
        assert t[j] == r[j - 1];
      } else {
        assert t[i] == r[i - 1] && t[j] == r[j - 1];
      }
    }
  }

  /** `Vec::sort` on strings, as an insertion sort. */
  function Sort(s: seq<string>): (r: seq<string>)
    ensures multiset(r) == multiset(s)
  {
    if |s| == 0 then [] else
      assert s == [s[0]] + s[1..];
      Insert(s[0], Sort(s[1..]))
  }

  lemma {:induction false} SortSorted(s: seq<string>)
    ensures Sorted(Sort(s))
  {
    if |s| > 0 {
      SortSorted(s[1..]);
      InsertSorted(s[0], Sort(s[1..]));
    }
  }

  /** A strictly sorted sequence stays strictly sorted below a strict lower bound of its elements. */
  lemma StrictlySortedCons(h: string, r: seq<string>)
    requires StrictlySorted(r) && forall k | 0 <= k < |r| :: StrLess(h, r[k])
    ensures StrictlySorted([h] + r)
  {
    var t := [h] + r;
    forall i, j | 0 <= i < j < |t|
      ensures StrLess(t[i], t[j])
    {
      if i == 0 {
        assert t[j] == r[j - 1];
      } else {
        assert t[i] == r[i - 1] && t[j] == r[j - 1];
      }
    }
  }

  /** No element occurs twice. */
  ghost predicate Distinct(s: seq<string>) {
    forall i, j | 0 <= i < j < |s| :: s[i] != s[j]
  }

  /** A sorted sequence without repeats is strictly sorted. */
  lemma SortedDistinctStrict(s: seq<string>)
    requires Sorted(s) && Distinct(s)
    ensures StrictlySorted(s)
  {
  }

  /** A sequence has no repeats exactly when each element occurs once. */
  lemma {:induction false} DistinctMultiset(s: seq<string>)
    ensures Distinct(s) <==> forall x | x in multiset(s) :: multiset(s)[x] == 1
  {
    if |s| > 0 {
      DistinctMultiset(s[1..]);
      assert s == [s[0]] + s[1..];
      assert multiset(s) == multiset{s[0]} + multiset(s[1..]);
      if Distinct(s) {
        forall k | 0 <= k < |s[1..]|
          ensures s[1..][k] != s[0]
        {
          assert s[k + 1] != s[0];
        }
        assert s[0] !in multiset(s[1..]);
      }
      if forall x | x in multiset(s) :: multiset(s)[x] == 1 {
        assert multiset(s)[s[0]] == 1;
        assert s[0] !in multiset(s[1..]);
        forall x | x in multiset(s[1..])
          ensures multiset(s[1..])[x] == 1
        {
          assert multiset(s)[x] == 1;
        }
        forall i, j | 0 <= i < j < |s|
          ensures s[i] != s[j]
        {
          if i == 0 {
            assert s[j] == s[1..][j - 1];
          } else {
            assert s[i] == s[1..][i - 1] && s[j] == s[1..][j - 1];
          }
        }
      }
    }
  }

  /** Two strictly sorted sequences with the same elements are the same sequence. */
  lemma {:induction false} StrictlySortedUnique(a: seq<string>, b: seq<string>)
    requires StrictlySorted(a) && StrictlySorted(b)
    requires forall x :: x in a <==> x in b
    ensures a == b
    decreases |a| + |b|
  {
    assert |a| > 0 ==> a[0] in a;
    assert |b| > 0 ==> b[0] in b;
    if |a| > 0 && |b| > 0 {
      // both heads are the least element
      assert a[0] in a && b[0] in b;
      if a[0] != b[0] {
        var i :| 0 <= i < |b| && b[i] == a[0];
        var j :| 0 <= j < |a| && a[j] == b[0];
        assert i > 0 && j > 0;
        StrLessAsymmetric(b[0], b[i]);
      }
      forall x
        ensures x in a[1..] <==> x in b[1..]
      {
        if x in a[1..] {
          var k :| 1 <= k < |a| && a[k] == x;
          assert x in a;
          StrLessAsymmetric(a[0], a[k]);
          var m :| 0 <= m < |b| && b[m] == x;
          assert m > 0 && b[1..][m - 1] == x;
        }
        if x in b[1..] {
          var k :| 1 <= k < |b| && b[k] == x;
          assert x in b;
          StrLessAsymmetric(b[0], b[k]);
          var m :| 0 <= m < |a| && a[m] == x;
          assert m > 0 && a[1..][m - 1] == x;
        }
      }
      StrictlySortedUnique(a[1..], b[1..]);
      assert a == [a[0]] + a[1..] && b == [b[0]] + b[1..];
    }
  }
}
