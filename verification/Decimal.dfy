/** The decimal text that the printf conversions %d, %lld and %lu produce. */
module Decimal {
  import opened Bytes

  const ZERO: byte := '0' as int
  const MINUS: byte := '-' as int

  function Digits(n: nat): (t: Text)
    ensures t != []
    ensures forall i :: 0 <= i < |t| ==> 48 <= t[i] <= 57
  {
    if n < 10 then [ZERO + n] else Digits(n / 10) + [ZERO + n % 10]
  }

  function Print(v: int): (t: Text)
    ensures forall i :: 0 <= i < |t| ==> t[i] == 45 || 48 <= t[i] <= 57
  {
    if v < 0 then [MINUS] + Digits(-v) else Digits(v)
  }

  /** An independent reader: an optional minus sign (ASCII 45) and at least one
      digit (ASCII 48 to 57). */
  function ParseDigits(t: Text): Option<nat> {
    if t == [] || !(48 <= t[|t| - 1] <= 57) then None
    else if |t| == 1 then Some(t[0] - 48)
    else match ParseDigits(t[..|t| - 1])
      case None => None
      case Some(n) => Some(10 * n + (t[|t| - 1] - 48))
  }

  function Parse(t: Text): Option<int> {
    if t != [] && t[0] == 45 then
      match ParseDigits(t[1..])
      case None => None
      case Some(n) => Some(0 - n)
    else
      match ParseDigits(t)
      case None => None
      case Some(n) => Some(n)
  }

  lemma {:induction false} ParseDigitsOfDigits(n: nat)
    ensures ParseDigits(Digits(n)) == Some(n)
  {
    if n >= 10 {
      ParseDigitsOfDigits(n / 10);
      assert Digits(n)[..|Digits(n)| - 1] == Digits(n / 10);
    }
  }

  lemma ParsePrint(v: int)
    ensures Parse(Print(v)) == Some(v)
  {
    hide Digits, ParseDigits;
    if v < 0 {
      ParseDigitsOfDigits(-v);
      assert Print(v)[1..] == Digits(-v);
    } else {
      ParseDigitsOfDigits(v);
    }
  }

  /** A number is not written with leading zeros, nor zero with a sign. */
  predicate Canonical(t: Text) {
    t == [48] || (t != [] && t[0] != 48 && !(t[0] == 45 && |t| > 1 && t[1] == 48))
  }

  lemma {:induction false} DigitsOfParse(t: Text)
    requires ParseDigits(t).Some? && (t[0] != 48 || |t| == 1)
    ensures Digits(ParseDigits(t).value) == t
    ensures |t| > 1 ==> ParseDigits(t).value >= 10
    decreases |t|
  {
    if |t| > 1 {
      var front := t[..|t| - 1];
      DigitsOfParse(front);
      assert t == front + [t[|t| - 1]];
      assert front != [48];
      if |front| == 1 {
        assert ParseDigits(front).value == front[0] - 48;
      }
    }
  }

  /** The printed text is the only canonical one that reads as the number. */
  lemma PrintOnly(t: Text)
    requires Parse(t).Some? && Canonical(t)
    ensures Print(Parse(t).value) == t
  {
    hide Digits, ParseDigits;
    if t[0] == 45 {
      assert t == [45] + t[1..];
      NoEmptyDigits();
      DigitsOfParse(t[1..]);
      PositiveDigits(t[1..]);
    } else {
      NoEmptyDigits();
      DigitsOfParse(t);
    }
  }

  lemma NoEmptyDigits()
    ensures ParseDigits([]) == None
  {
  }

  lemma {:induction false} PositiveDigits(t: Text)
    requires ParseDigits(t).Some? && t[0] != 48
    ensures ParseDigits(t).value > 0
    decreases |t|
  {
    if |t| > 1 {
      PositiveDigits(t[..|t| - 1]);
    }
  }

  lemma PrintCanonical(v: int)
    ensures Canonical(Print(v))
  {
    if v < 0 {
      LeadingDigit(-v);
    } else {
      LeadingDigit(v);
    }
  }

  lemma {:induction false} LeadingDigit(n: nat)
    ensures if n == 0 then Digits(n) == [48] else Digits(n)[0] != 48 && Digits(n)[0] != 45
  {
    if n >= 10 {
      LeadingDigit(n / 10);
    }
  }

  lemma {:induction false} DigitsLength(n: nat, k: nat, bound: nat)
    requires 0 < k && n < bound && bound <= PowerOfTen(k)
    ensures |Digits(n)| <= k
  {
    if n >= 10 {
      assert k > 1;
      DigitsLength(n / 10, k - 1, PowerOfTen(k - 1));
    }
  }

  function PowerOfTen(k: nat): (p: nat)
    ensures p > 0
  {
    if k == 0 then 1 else 10 * PowerOfTen(k - 1)
  }

  /** The widest renderings, the minimum of each signed type included: 6, 11
      and 20 characters. All fit the 256-byte scratch buffer of write_numeric. */
  lemma PrintLength(v: int)
    ensures FitsSigned(2, v) ==> |Print(v)| <= 6
    ensures FitsSigned(4, v) ==> |Print(v)| <= 11
    ensures FitsSigned(8, v) ==> |Print(v)| <= 20
    ensures FitsUnsigned(8, v) ==> |Print(v)| <= 20
  {
    Pow256Values();
    assert PowerOfTen(5) == 100000;
    assert PowerOfTen(10) == 10000000000;
    assert PowerOfTen(15) == 1000000000000000;
    assert PowerOfTen(19) == 10000000000000000000;
    assert PowerOfTen(20) == 100000000000000000000;
    var n: nat := if v < 0 then -v else v;
    if FitsSigned(2, v) { DigitsLength(n, 5, 32769); }
    if FitsSigned(4, v) { DigitsLength(n, 10, 2147483649); }
    if FitsSigned(8, v) { DigitsLength(n, 19, 9223372036854775809); }
    if FitsUnsigned(8, v) { DigitsLength(n, 20, 18446744073709551616); }
  }

  /** Each width is really reached: no smaller bound would do. */
  lemma PrintLengthTight()
    ensures |Print(-32768)| == 6 && |Print(-2147483648)| == 11
    ensures |Print(-9223372036854775808)| == 20
  {
    DigitsAtLeast(32768, 4);
    DigitsAtLeast(2147483648, 9);
    assert PowerOfTen(10) == 10000000000;
    assert PowerOfTen(15) == 1000000000000000;
    DigitsAtLeast(9223372036854775808, 18);
    Pow256Values();
    PrintLength(-32768);
    PrintLength(-2147483648);
    PrintLength(-9223372036854775808);
  }

  lemma {:induction false} DigitsAtLeast(n: nat, k: nat)
    requires n >= PowerOfTen(k)
    ensures |Digits(n)| >= k + 1
  {
    if k > 0 {
      DigitsAtLeast(n / 10, k - 1);
    }
  }
}
