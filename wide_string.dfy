/**
  Wide strings as the benchmark handles them: a `std::wstring` or a
  `CStringW` is a finite sequence of `wchar_t` code units, and the C view of
  one (what `c_str()` points at) is the same units followed by a NUL.
  This module also models `std::to_wstring` on the non-negative loop index.
 */
module WideString {

  /** A `wchar_t` code unit, compared by its numeric value. */
  type CodeUnit = nat

  type WString = seq<CodeUnit>

  /** The terminating NUL of a C wide string. */
  const NUL: CodeUnit := 0

  const DIGIT_ZERO: CodeUnit := 0x30

  /** A string with no embedded NUL: its C view ends exactly where it ends. */
  predicate NoNul(s: WString) {
    NUL !in s
  }

  /** A string literal `L"..."` written with ASCII text, as code units. */
  function Widen(s: string): (r: WString)
    ensures |r| == |s|
    ensures forall k :: 0 <= k < |s| ==> r[k] == s[k] as int
    ensures '\0' !in s ==> NoNul(r)
  {
    seq(|s|, k requires 0 <= k < |s| => s[k] as int)
  }

  /** A valid C wide string: some unit of it is the terminator. */
  predicate IsCString(p: WString) {
    NUL in p
  }

  /** `std::wstring::c_str()`: the units followed by a terminating NUL. */
  function CStr(s: WString): (p: WString)
    ensures IsCString(p) && |p| == |s| + 1 && p[..|s|] == s && p[|s|] == NUL
  {
    s + [NUL]
  }

  /**
    Construction of a `CStringW` from a `const wchar_t*`: it takes the units
    up to, and not including, the first NUL.
   */
  function FromCStr(p: WString): (r: WString)
    requires IsCString(p)
    ensures NoNul(r)
    ensures |r| < |p| && p[..|r|] == r && p[|r|] == NUL
  {
    if p[0] == NUL then [] else [p[0]] + FromCStr(p[1..])
  }

  /** A NUL-free string survives the trip through its C view. */
  lemma FromCStrOfCStr(s: WString)
    requires NoNul(s)
    ensures FromCStr(CStr(s)) == s
  {
  }

  /** A string with an embedded NUL does not: the C view cuts it short. */
  lemma FromCStrTruncates(s: WString)
    requires !NoNul(s)
    ensures |FromCStr(CStr(s))| < |s|
  {
  }

  predicate IsDigit(c: CodeUnit) {
    DIGIT_ZERO <= c < DIGIT_ZERO + 10
  }

  /**
    `std::to_wstring` on a non-negative value: its decimal digits, most
    significant first, with no leading zero.
   */
  function Decimal(i: nat): (r: WString)
    ensures |r| >= 1
    ensures forall k :: 0 <= k < |r| ==> IsDigit(r[k])
    ensures r[0] == DIGIT_ZERO <==> i == 0
    ensures i < 10 <==> |r| == 1
  {
    if i < 10 then [DIGIT_ZERO + i] else Decimal(i / 10) + [DIGIT_ZERO + i % 10]
  }

  function DigitValue(c: CodeUnit): (v: nat)
    requires IsDigit(c)
    ensures v < 10
  {
    c - DIGIT_ZERO
  }

  /** Reading a string of decimal digits back as a number. */
  function ParseDecimal(ds: WString): nat
    requires forall k :: 0 <= k < |ds| ==> IsDigit(ds[k])
  {
    if ds == [] then 0
    else ParseDecimal(ds[..|ds| - 1]) * 10 + DigitValue(ds[|ds| - 1])
  }

  lemma {:induction false} ParseDecimalOfDecimal(i: nat)
    ensures ParseDecimal(Decimal(i)) == i
  {
    if i >= 10 {
      var d := Decimal(i);
      assert d[..|d| - 1] == Decimal(i / 10);
      ParseDecimalOfDecimal(i / 10);
    }
  }

  /** Distinct iteration indices give distinct tags. */
  lemma DecimalInjective(i: nat, i': nat)
    ensures Decimal(i) == Decimal(i') <==> i == i'
  {
    if Decimal(i) == Decimal(i') {
      ParseDecimalOfDecimal(i);
      ParseDecimalOfDecimal(i');
    }
  }

  lemma DecimalNoNul(i: nat)
    ensures NoNul(Decimal(i))
  {
  }
}
