/**
  `RunTests`: build the shuffled corpus, take the C view of every entry,
  make three `CStringW` copies and three `std::wstring` copies, and sort each
  copy in turn (ATL1, STL1, ATL2, STL2, ATL3, STL3).
 */
module SortPerf {
  import opened WideString
  import opened SortContract
  import opened Ordinal
  import opened TestCorpus

  /** Lines 120-128: `shuffledPtrs`, the `c_str()` of every entry, in order. */
  method CStrPointers(shuffled: seq<WString>) returns (ptrs: seq<WString>)
    ensures |ptrs| == |shuffled|
    ensures forall k :: 0 <= k < |shuffled| ==> ptrs[k] == CStr(shuffled[k])
  {
    ptrs := [];
    for k := 0 to |shuffled|
      invariant |ptrs| == k
      invariant forall m :: 0 <= m < k ==> ptrs[m] == CStr(shuffled[m])
    {
      ptrs := ptrs + [CStr(shuffled[k])];
    }
  }

  /**
    Building a `CStringW` from each pointer of `CStrPointers(shuffled)` gives
    back the strings of `shuffled`, in the same order, when none of them
    holds a NUL.
   */
  lemma AtlCopyOfPointers(shuffled: seq<WString>, ptrs: seq<WString>)
    requires |ptrs| == |shuffled|
    requires forall k :: 0 <= k < |shuffled| ==> ptrs[k] == CStr(shuffled[k])
    requires forall k :: 0 <= k < |shuffled| ==> NoNul(shuffled[k])
    ensures forall k :: 0 <= k < |ptrs| ==> IsCString(ptrs[k]) && FromCStr(ptrs[k]) == shuffled[k]
  {
  }

  /**
    Lines 135-140: six independent vectors, the ATL ones (even positions)
    built from `shuffledPtrs` and the STL ones (odd positions) copied from
    `shuffled`. Before any sort each holds `shuffled`, and no two share
    storage.
   */
  method Replicate(shuffled: seq<WString>, ptrs: seq<WString>) returns (copies: seq<array<WString>>)
    requires |ptrs| == |shuffled|
    requires forall k :: 0 <= k < |shuffled| ==> ptrs[k] == CStr(shuffled[k])
    requires forall k :: 0 <= k < |shuffled| ==> NoNul(shuffled[k])
    ensures |copies| == 6
    ensures forall t :: 0 <= t < 6 ==> fresh(copies[t]) && copies[t][..] == shuffled
    ensures forall t, u :: 0 <= t < u < 6 ==> copies[t] != copies[u]
  {
    AtlCopyOfPointers(shuffled, ptrs);
    var n := |ptrs|;
    var atl1 := new WString[n](k requires 0 <= k < n => FromCStr(ptrs[k]));
    var stl1 := new WString[n](k requires 0 <= k < n => shuffled[k]);
    var atl2 := new WString[n](k requires 0 <= k < n => FromCStr(ptrs[k]));
    var stl2 := new WString[n](k requires 0 <= k < n => shuffled[k]);
    var atl3 := new WString[n](k requires 0 <= k < n => FromCStr(ptrs[k]));
    var stl3 := new WString[n](k requires 0 <= k < n => shuffled[k]);
    assert atl1[..] == shuffled && atl2[..] == shuffled && atl3[..] == shuffled;
    assert stl1[..] == shuffled && stl2[..] == shuffled && stl3[..] == shuffled;
    copies := [atl1, stl1, atl2, stl2, atl3, stl3];
  }

  /**
    The comparison the `t`-th trial sorts with: the ATL trials (even `t`)
    always compare with wcscmp, the STL trials only when the switch is on.
   */
  function TrialComparator(t: nat, useWcscmp: bool): (c: Comparator)
    ensures t % 2 == 0 ==> c == WcscmpLess
    ensures t % 2 == 1 ==> (c == WcscmpLess <==> useWcscmp)
  {
    if t % 2 == 0 then WcscmpLess           // CStringW's operator<
    else if useWcscmp then WcscmpLess       // TEST_STL_WCSCMP_COMPARE defined
    else WstringLess                        // std::wstring's operator<
  }

  /** Whichever comparison a trial uses, on NUL-free strings it is the lexicographic order. */
  lemma TrialComparatorIsLex(t: nat, useWcscmp: bool)
    ensures forall a, b :: NoNul(a) && NoNul(b) ==>
      (Less(TrialComparator(t, useWcscmp), a, b) <==> LexLess(a, b))
  {
    forall a, b | NoNul(a) && NoNul(b)
      ensures Less(TrialComparator(t, useWcscmp), a, b) <==> LexLess(a, b)
    {
      LessIsLex(TrialComparator(t, useWcscmp), a, b);
    }
  }

  /**
    One timed block of lines 150-190 without its clock: sort the copy with
    the trial's comparison. The outcome is the reference arrangement of what
    the copy held.
   */
  method SortTrial(a: array<WString>, c: Comparator) returns (r: seq<WString>)
    requires Admissible(c, a[..])
    modifies a
    ensures r == a[..]
    ensures SortedBy(c, r) && multiset(r) == multiset(old(a[..]))
    ensures r == Ascending(old(a[..]))
  {
    Sort(a, c);
    r := a[..];
    SortOutcomeDetermined(c, old(a[..]), r);
  }

  /**
    `RunTests` without its timing and output. `n` is `kTestIterationCount`,
    `draw` the generator's outputs and `useWcscmp` whether
    `TEST_STL_WCSCMP_COMPARE` is defined. Returns the shuffled corpus and
    the six vectors after their sorts, in trial order.
   */
  method RunTests(n: nat, draw: nat -> nat, useWcscmp: bool)
    returns (shuffled: seq<WString>, sorted: seq<seq<WString>>)
    ensures shuffled == Shuffled(Corpus(LOREM, n), draw)
    ensures |shuffled| == 8 * n
    ensures multiset(shuffled) == multiset(Corpus(LOREM, n))
    ensures |sorted| == 6
    ensures forall t :: 0 <= t < 6 ==>
      SortedBy(TrialComparator(t, useWcscmp), sorted[t]) && multiset(sorted[t]) == multiset(shuffled)
    ensures forall t :: 0 <= t < 6 ==> sorted[t] == Ascending(Corpus(LOREM, n))
  {
    shuffled := MakeShuffled(n, draw);
    var ptrs := CStrPointers(shuffled);
    var copies := Replicate(shuffled, ptrs);
    var atl1, stl1, atl2, stl2, atl3, stl3 := copies[0], copies[1], copies[2], copies[3], copies[4], copies[5];

    // Each trial owns its vector: the earlier sorts left this copy as built.
    assert atl1[..] == shuffled;
    var sorted0 := SortTrial(atl1, TrialComparator(0, useWcscmp));
    assert stl1[..] == shuffled;
    var sorted1 := SortTrial(stl1, TrialComparator(1, useWcscmp));
    assert atl2[..] == shuffled;
    var sorted2 := SortTrial(atl2, TrialComparator(2, useWcscmp));
    assert stl2[..] == shuffled;
    var sorted3 := SortTrial(stl2, TrialComparator(3, useWcscmp));
    assert atl3[..] == shuffled;
    var sorted4 := SortTrial(atl3, TrialComparator(4, useWcscmp));
    assert stl3[..] == shuffled;
    var sorted5 := SortTrial(stl3, TrialComparator(5, useWcscmp));

    sorted := [sorted0, sorted1, sorted2, sorted3, sorted4, sorted5];
    AscendingOfPermutation(shuffled, Corpus(LOREM, n));
    forall t | 0 <= t < 6
      ensures SortedBy(TrialComparator(t, useWcscmp), sorted[t]) && multiset(sorted[t]) == multiset(shuffled)
      ensures sorted[t] == Ascending(shuffled)
    {
      // Naming each index separately lets the solver read `sorted[t]` off the display.
      if t == 0 {} else if t == 1 {} else if t == 2 {} else if t == 3 {} else if t == 4 {} else {}
    }
  }
}
