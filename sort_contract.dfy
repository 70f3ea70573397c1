/**
  `std::sort` as the benchmark uses it, modelled by its postcondition from
  section [alg.sort] of the C++ standard: afterwards the range is sorted with
  respect to the comparison (no element is less than one before it) and is
  a permutation of what it was.

  Because both comparisons order the sorted strings totally, with
  equivalence meaning equality, that postcondition fixes the result: every
  conforming sort, stable or not, yields `Ascending(s)`.
 */
module SortContract {
  import opened WideString
  import opened Ordinal

  /** Which `operator<` a `sort` call compares with. */
  datatype Comparator =
    | WstringLess   // `std::wstring`'s `operator<`, lines 159, 173, 187
    | WcscmpLess    // `CompareUsingWcscmp` (lines 157, 171, 185), and
                    // `CStringW`'s `operator<`, which compares with wcscmp

  predicate Less(c: Comparator, a: WString, b: WString) {
    match c
    case WstringLess => StlLess(a, b)
    case WcscmpLess => CompareUsingWcscmp(a, b)
  }

  /** What the comparator needs of the strings for it to mean `LexLess`. */
  predicate Admissible(c: Comparator, s: seq<WString>) {
    c == WcscmpLess ==> forall k :: 0 <= k < |s| ==> NoNul(s[k])
  }

  /** Sorted with respect to `c`, as [alg.sort] defines it. */
  predicate SortedBy(c: Comparator, s: seq<WString>) {
    forall i, j :: 0 <= i < j < |s| ==> !Less(c, s[j], s[i])
  }

  predicate LexSorted(s: seq<WString>) {
    forall i, j :: 0 <= i < j < |s| ==> !LexLess(s[j], s[i])
  }

  lemma LessIsLex(c: Comparator, a: WString, b: WString)
    requires c == WcscmpLess ==> NoNul(a) && NoNul(b)
    ensures Less(c, a, b) <==> LexLess(a, b)
  {
    if c == WcscmpLess {
      WcscmpIsLex(a, b);
    } else {
      StlLessIsLex(a, b);
    }
  }

  lemma SortedByIsLexSorted(c: Comparator, s: seq<WString>)
    requires Admissible(c, s)
    ensures SortedBy(c, s) <==> LexSorted(s)
  {
    forall i, j | 0 <= i < |s| && 0 <= j < |s| ensures Less(c, s[j], s[i]) <==> LexLess(s[j], s[i]) {
      LessIsLex(c, s[j], s[i]);
    }
  }

  /** "Not less than" chains, since the order is total. */
  lemma LexNotLessTransitive(a: WString, b: WString, c: WString)
    requires !LexLess(b, a) && !LexLess(c, b)
    ensures !LexLess(c, a)
  {
  }

  // ---------------------------------------------------------------------------
  // The reference arrangement
  // ---------------------------------------------------------------------------

  function Insert(x: WString, s: seq<WString>): (r: seq<WString>)
    ensures multiset(r) == multiset(s) + multiset{x}
    ensures |r| == |s| + 1
  {
    if s == [] then [x]
    else if LexLess(s[0], x) then
      assert s == [s[0]] + s[1..];
      [s[0]] + Insert(x, s[1..])
    else [x] + s
  }

  /** The strings of `s` in ascending lexicographic order. */
  function Ascending(s: seq<WString>): (r: seq<WString>)
    ensures |r| == |s|
    ensures multiset(r) == multiset(s)
  {
    if s == [] then []
    else
      assert s == [s[0]] + s[1..];
      Insert(s[0], Ascending(s[1..]))
  }

  lemma {:induction false} InsertSorted(x: WString, s: seq<WString>)
    requires LexSorted(s)
    ensures LexSorted(Insert(x, s))
  {
    var r := Insert(x, s);
    if s == [] {
    } else if LexLess(s[0], x) {
      InsertSorted(x, s[1..]);
      var t := Insert(x, s[1..]);
      assert r == [s[0]] + t;
      forall j | 0 < j < |r| ensures !LexLess(r[j], s[0]) {
        assert r[j] in multiset(t);
        assert r[j] in multiset(s[1..]) + multiset{x};
        if r[j] == x {
          LexAsymmetric(s[0], x);
        } else {
          assert r[j] in s[1..];
          var m :| 0 <= m < |s[1..]| && s[1..][m] == r[j];
          assert s[m + 1] == r[j];
        }
      }
    } else {
      assert r == [x] + s;
      forall j | 0 < j < |r| ensures !LexLess(r[j], x) {
        if j > 1 {
          LexNotLessTransitive(x, s[0], s[j - 1]);
        }
      }
    }
  }

  lemma {:induction false} AscendingSorted(s: seq<WString>)
    ensures LexSorted(Ascending(s))
  {
    if s != [] {
      AscendingSorted(s[1..]);
      InsertSorted(s[0], Ascending(s[1..]));
    }
  }

  /** Two sorted arrangements of the same strings are the same sequence. */
  lemma {:induction false} SortedUnique(r: seq<WString>, r': seq<WString>)
    requires LexSorted(r) && LexSorted(r')
    requires multiset(r) == multiset(r')
    ensures r == r'
    decreases |r|
  {
    if r == [] {
      assert |multiset(r')| == 0;
    } else {
      assert |r'| == |multiset(r')| == |multiset(r)| == |r| > 0;
      assert r[0] in multiset(r');
      var k :| 0 <= k < |r'| && r'[k] == r[0];
      if k == 0 {
        LexIrreflexive(r[0]);
      }
      assert !LexLess(r'[k], r'[0]);
      assert r'[0] in multiset(r);
      var m :| 0 <= m < |r| && r[m] == r'[0];
      if m == 0 {
        LexIrreflexive(r[0]);
      }
      assert !LexLess(r[m], r[0]);
      LexTotal(r[0], r'[0]);
      assert r[0] == r'[0];
      assert r == [r[0]] + r[1..] && r' == [r'[0]] + r'[1..];
      assert multiset(r) == multiset{r[0]} + multiset(r[1..]);
      assert multiset(r') == multiset{r[0]} + multiset(r'[1..]);
      assert multiset(r[1..]) == multiset(r) - multiset{r[0]};
      assert multiset(r'[1..]) == multiset(r') - multiset{r[0]};
      SortedUnique(r[1..], r'[1..]);
    }
  }

  /**
    [alg.sort] determines the outcome: any arrangement of `s` that is sorted
    with respect to `c` is `Ascending(s)`.
   */
  lemma SortOutcomeDetermined(c: Comparator, s: seq<WString>, r: seq<WString>)
    requires Admissible(c, s)
    requires multiset(r) == multiset(s)
    requires SortedBy(c, r)
    ensures r == Ascending(s)
  {
    assert Admissible(c, r) by {
      forall k | 0 <= k < |r| ensures c == WcscmpLess ==> NoNul(r[k]) {
        assert r[k] in multiset(s);
      }
    }
    SortedByIsLexSorted(c, r);
    AscendingSorted(s);
    SortedUnique(r, Ascending(s));
  }

  /** Sorting a range that is already sorted leaves it as it was. */
  lemma SortIdempotent(c: Comparator, s: seq<WString>, r: seq<WString>)
    requires Admissible(c, s) && SortedBy(c, s)
    requires multiset(r) == multiset(s) && SortedBy(c, r)
    ensures r == s
  {
    SortOutcomeDetermined(c, s, r);
    SortOutcomeDetermined(c, s, s);
  }

  /** The outcome depends only on which strings there are. */
  lemma AscendingOfPermutation(s: seq<WString>, s': seq<WString>)
    requires multiset(s) == multiset(s')
    ensures Ascending(s) == Ascending(s')
  {
    AscendingSorted(s);
    AscendingSorted(s');
    SortedUnique(Ascending(s), Ascending(s'));
  }

  /**
    `std::sort(a.begin(), a.end(), c)`. Only its [alg.sort] postcondition is
    the model; the body writes back the reference arrangement, which is one
    range meeting it.
   */
  method Sort(a: array<WString>, c: Comparator)
    requires Admissible(c, a[..])
    modifies a
    ensures SortedBy(c, a[..])
    ensures forall k :: 0 <= k < a.Length - 1 ==> !Less(c, a[k + 1], a[k])
    ensures multiset(a[..]) == multiset(old(a[..]))
  {
    ghost var before := a[..];
    var r := Ascending(a[..]);
    for k := 0 to a.Length
      invariant a[..k] == r[..k]
    {
      a[k] := r[k];
    }
    assert a[..] == r;
    AscendingSorted(before);
    SortedByIsLexSorted(c, r) by {
      forall k | 0 <= k < |r| ensures c == WcscmpLess ==> NoNul(r[k]) {
        assert r[k] in multiset(before);
      }
    }
  }
}
