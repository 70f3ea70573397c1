/**
  The test corpus of `RunTests`: for every iteration index `i` and every one
  of the eight template lines, in table order, the line followed by
  `" (#" + to_wstring(i) + ")"`; then shuffled in place.
 */
module TestCorpus {
  import opened WideString

  /**
    The template table `lorem` of lines 88-98. Each line is written as two
    literals joined together; the text is unchanged. The split is there
    because the verifier decides that a literal holds no NUL quickly only
    when the literal is short.
   */
  const LOREM_0: WString := Widen("Lorem ipsum dolor sit amet, " + "consectetuer adipiscing elit.")
  const LOREM_1: WString := Widen("Maecenas porttitor congue massa. " + "Fusce posuere, magna sed")
  const LOREM_2: WString := Widen("pulvinar ultricies, purus lectus " + "malesuada libero,")
  const LOREM_3: WString := Widen("sit amet commodo magna " + "eros quis urna.")
  const LOREM_4: WString := Widen("Nunc viverra imperdiet enim. " + "Fusce est. Vivamus a tellus.")
  const LOREM_5: WString := Widen("Pellentesque habitant morbi " + "tristique senectus et netus et")
  const LOREM_6: WString := Widen("malesuada fames ac turpis egestas. " + "Proin pharetra nonummy pede.")
  const LOREM_7: WString := Widen("Mauris et orci. [*** add more " + "chars to prevent SSO ***]")

  const LOREM: seq<WString> := [LOREM_0, LOREM_1, LOREM_2, LOREM_3, LOREM_4, LOREM_5, LOREM_6, LOREM_7]

  const TAG_OPEN: WString := Widen(" (#")
  const TAG_CLOSE: WString := Widen(")")

  /** The entry for template `j` in iteration `i` (line 110). */
  function Entry(lorem: seq<WString>, j: nat, i: nat): (r: WString)
    requires j < |lorem|
    ensures lorem[j] <= r
    ensures |r| == |lorem[j]| + |Decimal(i)| + 4
  {
    lorem[j] + TAG_OPEN + Decimal(i) + TAG_CLOSE
  }

  /** The eight entries one pass of the inner loop appends, in table order. */
  function Row(lorem: seq<WString>, i: nat): (r: seq<WString>)
    requires |lorem| == 8
    ensures |r| == 8
    ensures forall j :: 0 <= j < 8 ==> r[j] == Entry(lorem, j, i)
  {
    seq(8, j requires 0 <= j < 8 => Entry(lorem, j, i))
  }

  /**
    The vector before the shuffle, after `n` iterations of the outer loop:
    iteration-major, template-minor, so entry `8 * i + j` is `Entry(lorem, j, i)`.
   */
  function Corpus(lorem: seq<WString>, n: nat): (v: seq<WString>)
    requires |lorem| == 8
    ensures |v| == 8 * n
    ensures forall i, j :: 0 <= i < n && 0 <= j < 8 ==>
      v[8 * i + j] == Entry(lorem, j, i)
  {
    if n == 0 then [] else Corpus(lorem, n - 1) + Row(lorem, n - 1)
  }

  // ---------------------------------------------------------------------------
  // Facts about the template table
  // ---------------------------------------------------------------------------

  /** No line of the table is a prefix of another. */
  predicate PrefixFree(t: seq<WString>) {
    forall j, k :: 0 <= j < |t| && 0 <= k < |t| && j != k ==> !(t[j] <= t[k])
  }

  /** What the corpus lemmas need of a template table. */
  predicate IsTemplateTable(lorem: seq<WString>) {
    && |lorem| == 8
    && (forall j :: 0 <= j < |lorem| ==> NoNul(lorem[j]))
    && PrefixFree(lorem)
  }

  lemma Template0() ensures NoNul(LOREM_0) && |LOREM_0| > 2 && LOREM_0[0] == 'L' as int {}
  lemma Template1() ensures NoNul(LOREM_1) && |LOREM_1| > 2 && LOREM_1[0] == 'M' as int && LOREM_1[2] == 'e' as int {}
  lemma Template2() ensures NoNul(LOREM_2) && |LOREM_2| > 2 && LOREM_2[0] == 'p' as int {}
  lemma Template3() ensures NoNul(LOREM_3) && |LOREM_3| > 2 && LOREM_3[0] == 's' as int {}
  lemma Template4() ensures NoNul(LOREM_4) && |LOREM_4| > 2 && LOREM_4[0] == 'N' as int {}
  lemma Template5() ensures NoNul(LOREM_5) && |LOREM_5| > 2 && LOREM_5[0] == 'P' as int {}
  lemma Template6() ensures NoNul(LOREM_6) && |LOREM_6| > 2 && LOREM_6[0] == 'm' as int {}
  lemma Template7() ensures NoNul(LOREM_7) && |LOREM_7| > 2 && LOREM_7[0] == 'M' as int && LOREM_7[2] == 'u' as int {}

  /**
    The table has eight NUL-free lines, none a prefix of another: all begin
    with different letters except "Maecenas ..." and "Mauris ...", which
    part at their third letter.
   */
  lemma TemplateTable()
    ensures IsTemplateTable(LOREM)
  {
    Template0(); Template1(); Template2(); Template3();
    Template4(); Template5(); Template6(); Template7();
    forall j, k | 0 <= j < 8 && 0 <= k < 8 && j != k
      ensures !(LOREM[j] <= LOREM[k])
    {
      var d := if (j == 1 && k == 7) || (j == 7 && k == 1) then 2 else 0;
      assert LOREM[j][d] != LOREM[k][d];
    }
  }

  // ---------------------------------------------------------------------------
  // Entries
  // ---------------------------------------------------------------------------

  /** After the template and `" (#"` come the digits of `i`, then `")"`. */
  lemma EntryTag(lorem: seq<WString>, j: nat, i: nat)
    requires j < |lorem|
    ensures var e := Entry(lorem, j, i);
      e[|lorem[j]|..|lorem[j]| + 3] == TAG_OPEN &&
      e[|lorem[j]| + 3..|e| - 1] == Decimal(i) && e[|e| - 1] == ')' as int
  {
  }

  lemma EntryNoNul(lorem: seq<WString>, j: nat, i: nat)
    requires IsTemplateTable(lorem) && j < 8
    ensures NoNul(Entry(lorem, j, i))
  {
  }

  /** Template `j` begins the entry for template `k` exactly when `j == k`. */
  lemma EntryTemplate(lorem: seq<WString>, j: nat, k: nat, i: nat)
    requires IsTemplateTable(lorem) && j < 8 && k < 8
    ensures lorem[j] <= Entry(lorem, k, i) <==> j == k
  {
  }

  /** Different (template, iteration) pairs give different entries. */
  lemma EntryInjective(lorem: seq<WString>, j: nat, i: nat, j': nat, i': nat)
    requires IsTemplateTable(lorem) && j < 8 && j' < 8
    ensures Entry(lorem, j, i) == Entry(lorem, j', i') <==> j == j' && i == i'
  {
    if Entry(lorem, j, i) == Entry(lorem, j', i') {
      EntryTemplate(lorem, j, j', i');
      EntryTemplate(lorem, j, j, i);
      var h := lorem[j] + TAG_OPEN;
      var e, e' := Entry(lorem, j, i), Entry(lorem, j', i');
      assert e == h + (Decimal(i) + TAG_CLOSE) && e' == h + (Decimal(i') + TAG_CLOSE);
      assert e[|h|..] == Decimal(i) + TAG_CLOSE;
      assert e'[|h|..] == Decimal(i') + TAG_CLOSE;
      assert Decimal(i) == (Decimal(i) + TAG_CLOSE)[..|Decimal(i) + TAG_CLOSE| - 1];
      assert Decimal(i') == (Decimal(i') + TAG_CLOSE)[..|Decimal(i') + TAG_CLOSE| - 1];
      DecimalInjective(i, i');
    }
  }

  // ---------------------------------------------------------------------------
  // The corpus as a whole
  // ---------------------------------------------------------------------------

  lemma CorpusEntry(lorem: seq<WString>, n: nat, p: nat)
    requires |lorem| == 8 && p < 8 * n
    ensures Corpus(lorem, n)[p] == Entry(lorem, p % 8, p / 8)
  {
  }

  lemma CorpusNoNul(lorem: seq<WString>, n: nat)
    requires IsTemplateTable(lorem)
    ensures forall p :: 0 <= p < 8 * n ==> NoNul(Corpus(lorem, n)[p])
  {
  }

  /** No entry occurs twice. */
  lemma CorpusDistinct(lorem: seq<WString>, n: nat)
    requires IsTemplateTable(lorem)
    ensures forall p, q :: 0 <= p < q < 8 * n ==> Corpus(lorem, n)[p] != Corpus(lorem, n)[q]
  {
    forall p, q | 0 <= p < q < 8 * n ensures Corpus(lorem, n)[p] != Corpus(lorem, n)[q] {
      CorpusEntry(lorem, n, p);
      CorpusEntry(lorem, n, q);
      EntryInjective(lorem, p % 8, p / 8, q % 8, q / 8);
      assert p == 8 * (p / 8) + p % 8;
      assert q == 8 * (q / 8) + q % 8;
    }
  }

  lemma {:induction false} DistinctMultiplicity(s: seq<WString>, x: WString)
    requires forall p, q :: 0 <= p < q < |s| ==> s[p] != s[q]
    ensures multiset(s)[x] == if x in s then 1 else 0
  {
    if s != [] {
      DistinctMultiplicity(s[1..], x);
      assert s == [s[0]] + s[1..];
      assert multiset(s) == multiset{s[0]} + multiset(s[1..]);
    }
  }

  /**
    Each (template, iteration) pair contributes exactly one entry, and
    nothing else is in the corpus.
   */
  lemma CorpusMultiplicity(lorem: seq<WString>, n: nat, j: nat, i: nat)
    requires IsTemplateTable(lorem) && j < 8
    ensures multiset(Corpus(lorem, n))[Entry(lorem, j, i)] == if i < n then 1 else 0
  {
    var v := Corpus(lorem, n);
    var e := Entry(lorem, j, i);
    CorpusDistinct(lorem, n);
    DistinctMultiplicity(v, e);
    if i < n {
      assert v[8 * i + j] == e;
    } else if e in v {
      var p :| 0 <= p < |v| && v[p] == e;
      CorpusEntry(lorem, n, p);
      EntryInjective(lorem, p % 8, p / 8, j, i);
      assert false;
    }
  }

  lemma CorpusMembers(lorem: seq<WString>, n: nat, x: WString)
    requires |lorem| == 8 && x in Corpus(lorem, n)
    ensures exists j, i :: 0 <= j < 8 && 0 <= i < n && x == Entry(lorem, j, i)
  {
  }

  // ---------------------------------------------------------------------------
  // Entries by template
  // ---------------------------------------------------------------------------

  /** The entries of `v` that begin with `t`, in order. */
  function Tagged(v: seq<WString>, t: WString): (r: seq<WString>)
    ensures |r| <= |v|
  {
    if v == [] then [] else (if t <= v[0] then [v[0]] else []) + Tagged(v[1..], t)
  }

  lemma {:induction false} TaggedConcat(x: seq<WString>, y: seq<WString>, t: WString)
    ensures Tagged(x + y, t) == Tagged(x, t) + Tagged(y, t)
  {
    if x != [] {
      assert (x + y)[0] == x[0] && (x + y)[1..] == x[1..] + y;
      TaggedConcat(x[1..], y, t);
      var h := if t <= x[0] then [x[0]] else [];
      assert Tagged(x + y, t) == h + (Tagged(x[1..], t) + Tagged(y, t));
      assert Tagged(x, t) == h + Tagged(x[1..], t);
    } else {
      assert x + y == y;
    }
  }

  lemma {:induction false} TaggedSingle(y: seq<WString>, t: WString, m: nat)
    requires m < |y| && t <= y[m]
    requires forall k :: 0 <= k < |y| && k != m ==> !(t <= y[k])
    ensures Tagged(y, t) == [y[m]]
  {
    if m == 0 {
      TaggedNone(y[1..], t);
    } else {
      TaggedSingle(y[1..], t, m - 1);
    }
  }

  lemma {:induction false} TaggedNone(y: seq<WString>, t: WString)
    requires forall k :: 0 <= k < |y| ==> !(t <= y[k])
    ensures Tagged(y, t) == []
  {
    if y != [] {
      TaggedNone(y[1..], t);
    }
  }

  /**
    Template `j` begins exactly `n` entries of the corpus, tagged with the
    iteration indices 0, 1, ..., n - 1 in increasing order.
   */
  lemma {:induction false} TemplateColumn(lorem: seq<WString>, n: nat, j: nat)
    requires IsTemplateTable(lorem) && j < 8
    ensures Tagged(Corpus(lorem, n), lorem[j]) == seq(n, i requires 0 <= i => Entry(lorem, j, i))
  {
    if n > 0 {
      var m := n - 1;
      TemplateColumn(lorem, m, j);
      TaggedConcat(Corpus(lorem, m), Row(lorem, m), lorem[j]);
      forall k | 0 <= k < 8 ensures lorem[j] <= Entry(lorem, k, m) <==> k == j {
        EntryTemplate(lorem, j, k, m);
      }
      TaggedSingle(Row(lorem, m), lorem[j], j);
    }
  }

  // ---------------------------------------------------------------------------
  // The builder (lines 86-118)
  // ---------------------------------------------------------------------------

  /** The nested loops of lines 106-113: `n` passes over the template table. */
  method BuildEntries(lorem: seq<WString>, n: nat) returns (v: seq<WString>)
    requires |lorem| == 8
    ensures v == Corpus(lorem, n)
  {
    v := [];
    var i := 0;
    while i < n
      invariant 0 <= i <= n
      invariant v == Corpus(lorem, i)
    {
      for j := 0 to |lorem|
        invariant v == Corpus(lorem, i) + Row(lorem, i)[..j]
      {
        v := v + [lorem[j] + TAG_OPEN + Decimal(i) + TAG_CLOSE];
        assert Row(lorem, i)[..j + 1] == Row(lorem, i)[..j] + [Entry(lorem, j, i)];
      }
      assert Row(lorem, i)[..8] == Row(lorem, i);
      i := i + 1;
    }
  }

  /** `s` with the entries at `i` and `j` exchanged. */
  function Swap(s: seq<WString>, i: nat, j: nat): (r: seq<WString>)
    requires i < |s| && j < |s|
    ensures |r| == |s| && r[i] == s[j] && r[j] == s[i]
    ensures forall k :: 0 <= k < |s| && k != i && k != j ==> r[k] == s[k]
  {
    s[i := s[j]][j := s[i]]
  }

  lemma SwapPermutes(s: seq<WString>, i: nat, j: nat)
    requires i < |s| && j < |s|
    ensures multiset(Swap(s, i, j)) == multiset(s)
  {
  }

  /**
    What the rest of the shuffle makes of `s` when the positions from `i` on
    are settled: position `i - 1` is exchanged with the one the next draw
    picks among `0 .. i - 1`, and so on down to position 1.
   */
  function ShuffleFrom(s: seq<WString>, draw: nat -> nat, i: nat): (r: seq<WString>)
    requires i <= |s|
    ensures |r| == |s| && r[i..] == s[i..]
    decreases i
  {
    if i <= 1 then s
    else
      var m := i - 1;
      ShuffleFrom(Swap(s, m, draw(|s| - 1 - m) % (m + 1)), draw, m)
  }

  /**
    The shuffle of the whole of `s` with the draws `draw(0), draw(1), ...`:
    a rearrangement of `s`, whatever the generator supplies.
   */
  function Shuffled(s: seq<WString>, draw: nat -> nat): (r: seq<WString>)
    ensures |r| == |s|
    ensures multiset(r) == multiset(s)
  {
    ShuffleFromPermutes(s, draw, |s|);
    ShuffleFrom(s, draw, |s|)
  }

  lemma {:induction false} ShuffleFromPermutes(s: seq<WString>, draw: nat -> nat, i: nat)
    requires i <= |s|
    ensures |ShuffleFrom(s, draw, i)| == |s|
    ensures multiset(ShuffleFrom(s, draw, i)) == multiset(s)
    decreases i
  {
    if i > 1 {
      var m := i - 1;
      var j := draw(|s| - 1 - m) % (m + 1);
      SwapPermutes(s, m, j);
      ShuffleFromPermutes(Swap(s, m, j), draw, m);
    }
  }

  /**
    `std::shuffle(v.begin(), v.end(), prng)` (line 116) as a Fisher-Yates
    pass. `draw(k)` stands for the `k`-th value the generator supplies, so
    the outcome is a function of the input and the generator.
   */
  method Shuffle(a: array<WString>, draw: nat -> nat)
    modifies a
    ensures a[..] == Shuffled(old(a[..]), draw)
    ensures multiset(a[..]) == multiset(old(a[..]))
  {
    var i := a.Length;
    while i > 1
      invariant 0 <= i <= a.Length
      invariant ShuffleFrom(a[..], draw, i) == Shuffled(old(a[..]), draw)
    {
      i := i - 1;
      var j := draw(a.Length - 1 - i) % (i + 1);
      assert a[..][i := a[j]][j := a[i]] == Swap(a[..], i, j);
      a[i], a[j] := a[j], a[i];
    }
  }

  /**
    The lambda of lines 86-118: build the entries from the table, shuffle
    them, and return the vector. The result holds each (template,
    iteration) entry once.
   */
  method MakeShuffled(n: nat, draw: nat -> nat) returns (shuffled: seq<WString>)
    ensures shuffled == Shuffled(Corpus(LOREM, n), draw)
    ensures |shuffled| == 8 * n
    ensures multiset(shuffled) == multiset(Corpus(LOREM, n))
    ensures forall k :: 0 <= k < |shuffled| ==> NoNul(shuffled[k])
  {
    var v := BuildEntries(LOREM, n);
    var a := new WString[|v|](k requires 0 <= k < |v| => v[k]);
    assert a[..] == v;
    Shuffle(a, draw);
    shuffled := a[..];
    assert |shuffled| == |multiset(shuffled)| == |multiset(v)| == |v|;
    TemplateTable();
    CorpusNoNul(LOREM, n);
    forall k | 0 <= k < |shuffled| ensures NoNul(shuffled[k]) {
      assert shuffled[k] in multiset(v);
    }
  }
}
