/**
  The two orderings the benchmark sorts with, and the reference they are
  measured against.

  - `StlLess` is `operator<` on `std::wstring`: `compare()` runs `wmemcmp`
    over the shorter length and then lets the shorter string come first.
  - `CompareUsingWcscmp` is the comparator the source substitutes when
    `TEST_STL_WCSCMP_COMPARE` is defined: `wcscmp` on the two C views
    (section 7.29.4.4.1 of ISO C11, "The wcscmp function").
  - `LexLess` is the lexicographic order on code-unit values, defined on the
    strings themselves and independently of either library routine.
 */
module Ordinal {
  import opened WideString

  /** Lexicographic order by code-unit value; a proper prefix comes first. */
  predicate LexLess(a: WString, b: WString)
    decreases |a|
  {
    if b == [] then false
    else if a == [] then true
    else if a[0] != b[0] then a[0] < b[0]
    else LexLess(a[1..], b[1..])
  }

  lemma {:induction false} LexIrreflexive(a: WString)
    ensures !LexLess(a, a)
  {
    if a != [] {
      LexIrreflexive(a[1..]);
    }
  }

  lemma {:induction false} LexAsymmetric(a: WString, b: WString)
    ensures LexLess(a, b) ==> !LexLess(b, a)
  {
    if a != [] && b != [] && a[0] == b[0] {
      LexAsymmetric(a[1..], b[1..]);
    }
  }

  lemma {:induction false} LexTransitive(a: WString, b: WString, c: WString)
    requires LexLess(a, b) && LexLess(b, c)
    ensures LexLess(a, c)
  {
    if a != [] && a[0] == b[0] && b[0] == c[0] {
      LexTransitive(a[1..], b[1..], c[1..]);
    }
  }

  /** Any two different strings are ordered one way or the other. */
  lemma {:induction false} LexTotal(a: WString, b: WString)
    ensures a == b || LexLess(a, b) || LexLess(b, a)
  {
    if a != [] && b != [] && a[0] == b[0] {
      LexTotal(a[1..], b[1..]);
      if a[1..] == b[1..] {
        assert a == [a[0]] + a[1..] && b == [b[0]] + b[1..];
      }
    }
  }

  /** A proper prefix is smaller than every string that extends it. */
  lemma {:induction false} LexProperPrefix(a: WString, b: WString)
    requires |a| < |b| && b[..|a|] == a
    ensures LexLess(a, b)
  {
    if a != [] {
      assert a[0] == b[0];
      assert b[1..][..|a| - 1] == a[1..];
      LexProperPrefix(a[1..], b[1..]);
    }
  }

  // ---------------------------------------------------------------------------
  // wcscmp
  // ---------------------------------------------------------------------------

  /**
    `wcscmp` on two C wide strings, scanning from position `k`: the sign of
    the first pair of differing units, or zero once both reach the NUL.
   */
  function Wcscmp(p: WString, q: WString, k: nat): (r: int)
    requires IsCString(p) && IsCString(q)
    requires p[|p| - 1] == NUL && q[|q| - 1] == NUL
    requires k < |p| && k < |q|
    ensures -1 <= r <= 1
    decreases |p| - k
  {
    if p[k] != q[k] then (if p[k] < q[k] then -1 else 1)
    else if p[k] == NUL then 0
    else Wcscmp(p, q, k + 1)
  }

  /**
    Line 70 of the source: `wcscmp(a.c_str(), b.c_str()) < 0`. It never
    holds of a string and itself; `WcscmpIsLex` says what it means on
    NUL-free strings.
   */
  function CompareUsingWcscmp(a: WString, b: WString): (r: bool)
    ensures r ==> a != b
  {
    WcscmpSelf(CStr(a), 0);
    Wcscmp(CStr(a), CStr(b), 0) < 0
  }

  lemma {:induction false} WcscmpFrom(a: WString, b: WString, k: nat)
    requires NoNul(a) && NoNul(b)
    requires k <= |a| && k <= |b|
    ensures Wcscmp(CStr(a), CStr(b), k) < 0 <==> LexLess(a[k..], b[k..])
    ensures Wcscmp(CStr(a), CStr(b), k) == 0 <==> a[k..] == b[k..]
    decreases |a| - k
  {
    var p, q := CStr(a), CStr(b);
    if k < |a| && k < |b| {
      assert p[k] == a[k] && q[k] == b[k];
      assert a[k] != NUL by { assert a[k] in a; }
      if a[k] == b[k] {
        WcscmpFrom(a, b, k + 1);
        assert a[k..][1..] == a[k + 1..] && b[k..][1..] == b[k + 1..];
        assert a[k..] == [a[k]] + a[k + 1..] && b[k..] == [b[k]] + b[k + 1..];
      }
    } else if k < |a| {
      assert a[k] != NUL by { assert a[k] in a; }
    } else if k < |b| {
      assert b[k] != NUL by { assert b[k] in b; }
    }
  }

  /**
    On NUL-free strings, `wcscmp` is the lexicographic comparison: negative
    exactly when the first string is smaller, zero exactly when they are
    equal.
   */
  lemma WcscmpIsLex(a: WString, b: WString)
    requires NoNul(a) && NoNul(b)
    ensures CompareUsingWcscmp(a, b) <==> LexLess(a, b)
    ensures Wcscmp(CStr(a), CStr(b), 0) == 0 <==> a == b
  {
    WcscmpFrom(a, b, 0);
    assert a[0..] == a && b[0..] == b;
  }

  lemma {:induction false} WcscmpSelf(p: WString, k: nat)
    requires IsCString(p) && p[|p| - 1] == NUL && k < |p|
    ensures Wcscmp(p, p, k) == 0
    decreases |p| - k
  {
    if p[k] != NUL {
      WcscmpSelf(p, k + 1);
    }
  }

  lemma {:induction false} WcscmpSwap(p: WString, q: WString, k: nat)
    requires IsCString(p) && IsCString(q)
    requires p[|p| - 1] == NUL && q[|q| - 1] == NUL
    requires k < |p| && k < |q|
    ensures Wcscmp(q, p, k) == -Wcscmp(p, q, k)
    decreases |p| - k
  {
    if p[k] == q[k] && p[k] != NUL {
      WcscmpSwap(p, q, k + 1);
    }
  }

  /** The comparator is a strict order on all strings, NUL or not. */
  lemma CompareUsingWcscmpIrreflexive(a: WString)
    ensures !CompareUsingWcscmp(a, a)
  {
    WcscmpSelf(CStr(a), 0);
  }

  lemma CompareUsingWcscmpAsymmetric(a: WString, b: WString)
    ensures CompareUsingWcscmp(a, b) ==> !CompareUsingWcscmp(b, a)
  {
    WcscmpSwap(CStr(a), CStr(b), 0);
  }

  /** A proper prefix is smaller than a NUL-free string that extends it. */
  lemma CompareUsingWcscmpProperPrefix(a: WString, b: WString)
    requires NoNul(b)
    requires |a| < |b| && b[..|a|] == a
    ensures CompareUsingWcscmp(a, b)
  {
    assert NoNul(a) by {
      forall k | 0 <= k < |a| ensures a[k] != NUL {
        assert a[k] == b[k] && b[k] in b;
      }
    }
    WcscmpIsLex(a, b);
    LexProperPrefix(a, b);
  }

  /** Two C views that agree up to a common NUL at `z` compare equal from `k` on. */
  lemma {:induction false} WcscmpEqualUpToNul(a: WString, b: WString, z: nat, k: nat)
    requires z < |a| && z < |b| && a[..z + 1] == b[..z + 1] && a[z] == NUL
    requires k <= z
    ensures Wcscmp(CStr(a), CStr(b), k) == 0
    decreases z - k
  {
    var p, q := CStr(a), CStr(b);
    assert p[k] == a[k] == a[..z + 1][k] == b[..z + 1][k] == b[k] == q[k];
    if k < z && p[k] != NUL {
      WcscmpEqualUpToNul(a, b, z, k + 1);
    }
  }

  /**
    The comparator cannot see past an embedded NUL: two strings that agree
    up to and including a NUL are equivalent to it, however they differ
    afterwards.
   */
  lemma WcscmpStopsAtNul(a: WString, b: WString, z: nat)
    requires z < |a| && z < |b| && a[..z + 1] == b[..z + 1] && a[z] == NUL
    ensures !CompareUsingWcscmp(a, b) && !CompareUsingWcscmp(b, a)
  {
    WcscmpEqualUpToNul(a, b, z, 0);
    WcscmpEqualUpToNul(b, a, z, 0);
  }

  /** For instance: two different strings it cannot order, which `operator<` does. */
  lemma WcscmpStopsAtNulExample()
    ensures var a, b := [0x41, NUL, 0x42], [0x41, NUL, 0x43];
      a != b && !CompareUsingWcscmp(a, b) && !CompareUsingWcscmp(b, a) && StlLess(a, b)
  {
    var a: WString, b: WString := [0x41, NUL, 0x42], [0x41, NUL, 0x43];
    assert a[..2] == b[..2];
    WcscmpStopsAtNul(a, b, 1);
    assert Wmemcmp(a, b, 3, 0) == -1;
  }

  // ---------------------------------------------------------------------------
  // std::wstring::compare and operator<
  // ---------------------------------------------------------------------------

  /** `wmemcmp` over the first `n` units, scanning from position `k`. */
  function Wmemcmp(a: WString, b: WString, n: nat, k: nat): (r: int)
    requires k <= n <= |a| && n <= |b|
    ensures -1 <= r <= 1
    decreases n - k
  {
    if k == n then 0
    else if a[k] != b[k] then (if a[k] < b[k] then -1 else 1)
    else Wmemcmp(a, b, n, k + 1)
  }

  /**
    `basic_string::compare`: `wmemcmp` over the common length, and on a tie
    the shorter string first.
   */
  function Compare(a: WString, b: WString): (r: int)
    ensures -1 <= r <= 1
    ensures r == 0 <==> a == b
  {
    var n := if |a| < |b| then |a| else |b|;
    WmemcmpFrom(a, b, n, 0);
    assert a[0..n] == a[..n] && b[0..n] == b[..n];
    assert |a| == |b| ==> a == a[..n] && b == b[..n];
    var m := Wmemcmp(a, b, n, 0);
    if m != 0 then m else if |a| < |b| then -1 else if |a| > |b| then 1 else 0
  }

  /**
    `operator<` on `std::wstring`, the default ordering of `std::sort`. It
    never holds of equal strings; `StlLessIsLex` says what it means.
   */
  function StlLess(a: WString, b: WString): (r: bool)
    ensures r ==> a != b
  {
    Compare(a, b) < 0
  }

  lemma {:induction false} WmemcmpFrom(a: WString, b: WString, n: nat, k: nat)
    requires k <= n <= |a| && n <= |b|
    ensures Wmemcmp(a, b, n, k) == 0 <==> a[k..n] == b[k..n]
    ensures Wmemcmp(a, b, n, k) < 0 <==> LexLess(a[k..n], b[k..n])
    decreases n - k
  {
    if k < n && a[k] == b[k] {
      WmemcmpFrom(a, b, n, k + 1);
      assert a[k..n] == [a[k]] + a[k + 1..n] && b[k..n] == [b[k]] + b[k + 1..n];
      assert a[k..n][1..] == a[k + 1..n] && b[k..n][1..] == b[k + 1..n];
    }
  }

  /** Lexicographic order is decided on a common prefix, when it decides. */
  lemma {:induction false} LexLessOnPrefix(a: WString, b: WString, n: nat)
    requires n <= |a| && n <= |b|
    requires a[..n] != b[..n]
    ensures LexLess(a, b) <==> LexLess(a[..n], b[..n])
  {
    if a[0] == b[0] {
      assert a[1..][..n - 1] == a[..n][1..] && b[1..][..n - 1] == b[..n][1..];
      LexLessOnPrefix(a[1..], b[1..], n - 1);
    }
  }

  /**
    `operator<` on `std::wstring` is the lexicographic order on every pair of
    strings, NUL or not, and `compare` returns zero exactly on equal strings.
   */
  lemma StlLessIsLex(a: WString, b: WString)
    ensures StlLess(a, b) <==> LexLess(a, b)
    ensures Compare(a, b) == 0 <==> a == b
  {
    var n := if |a| < |b| then |a| else |b|;
    WmemcmpFrom(a, b, n, 0);
    assert a[0..n] == a[..n] && b[0..n] == b[..n];
    if a[..n] != b[..n] {
      LexLessOnPrefix(a, b, n);
    } else if |a| < |b| {
      LexProperPrefix(a, b);
    } else if |b| < |a| {
      LexProperPrefix(b, a);
      LexAsymmetric(b, a);
    } else {
      assert a == a[..n] && b == b[..n];
      LexIrreflexive(a);
    }
  }

  /**
    The compile-time switch of lines 11-13 does not change the order: on the
    NUL-free strings the benchmark sorts, `CompareUsingWcscmp` and the
    default `operator<` agree on every pair.
   */
  lemma SwitchPreservesOrder(a: WString, b: WString)
    requires NoNul(a) && NoNul(b)
    ensures CompareUsingWcscmp(a, b) <==> StlLess(a, b)
  {
    WcscmpIsLex(a, b);
    StlLessIsLex(a, b);
  }
}
