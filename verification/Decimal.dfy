/** Decimal text of integers, as the Go functions strconv.Itoa and strconv.Atoi read and write it. */
module Decimal {
  import opened Ascii
  import opened Wrappers

  /** Bounds of Go's 64-bit int. */
  const MIN_INT := -0x8000_0000_0000_0000
  const MAX_INT := 0x7fff_ffff_ffff_ffff

  predicate IsDigit(b: Byte) {
    ZERO <= b <= NINE
  }

  predicate AllDigits(s: seq<Byte>) {
    forall k :: 0 <= k < |s| ==> IsDigit(s[k])
  }

  function DigitOf(b: Byte): (d: nat)
    requires IsDigit(b)
    ensures d < 10
  {
    b - ZERO
  }

  /** Decimal digits of a number that is not negative. */
  function Digits(n: nat): (s: seq<Byte>)
    ensures s != [] && AllDigits(s)
  {
    if n < 10 then [ZERO + n] else Digits(n / 10) + [ZERO + n % 10]
  }

  function Itoa(n: int): seq<Byte> {
    if n < 0 then [MINUS] + Digits(-n) else Digits(n)
  }

  /** The number a row of digits stands for. */
  function Value(s: seq<Byte>): nat
    requires AllDigits(s)
  {
    if s == [] then 0 else 10 * Value(s[..|s| - 1]) + DigitOf(s[|s| - 1])
  }

  function Atoi(s: seq<Byte>): Option<int> {
    var signed := s != [] && (s[0] == MINUS || s[0] == PLUS);
    var digits := if signed then s[1..] else s;
    if digits == [] || !AllDigits(digits) then None
    else
      var n := Value(digits) * (if signed && s[0] == MINUS then -1 else 1);
      if MIN_INT <= n <= MAX_INT then Some(n) else None
  }

  lemma {:induction false} ValueOfDigits(n: nat)
    ensures Value(Digits(n)) == n
  {
    if n >= 10 {
      ValueOfDigits(n / 10);
      assert Digits(n)[..|Digits(n)| - 1] == Digits(n / 10);
    }
  }

  /** Reading back a printed number: every 64-bit number comes back, and no other is read. */
  lemma AtoiItoa(n: int)
    ensures Atoi(Itoa(n)) ==
            if -9223372036854775808 <= n <= 9223372036854775807 then Some(n) else None
  {
    hide Digits, Value;
    if n < 0 {
      ValueOfDigits(-n);
      assert Itoa(n)[1..] == Digits(-n);
    } else {
      ValueOfDigits(n);
      assert IsDigit(Digits(n)[0]);
    }
  }

  /** The text of a number, digit by digit. */
  lemma ItoaText(n: int)
    ensures 0 <= n < 10 ==> Itoa(n) == [48 + n]
    ensures n >= 10 ==> Itoa(n) == Itoa(n / 10) + [48 + n % 10]
    ensures n < 0 ==> Itoa(n) == [45] + Itoa(-n)
  {
  }

  function Zeros(k: nat): (r: seq<Byte>)
    ensures |r| == k
  {
    if k == 0 then [] else Zeros(k - 1) + [48]
  }

  lemma {:induction false} ZerosFirst(k: nat)
    ensures forall i :: 0 <= i < k ==> Zeros(k)[i] == 48
  {
    if k > 0 {
      ZerosFirst(k - 1);
    }
  }

  /** A row of digits is the text of its value after some zeros. */
  lemma {:induction false} DigitsOfValue(s: seq<Byte>) returns (k: nat)
    requires s != [] && AllDigits(s)
    ensures s == Zeros(k) + Digits(Value(s))
  {
    var first, d := s[..|s| - 1], DigitOf(s[|s| - 1]);
    assert s == first + [ZERO + d];
    if first == [] {
      k := 0;
      assert Zeros(0) + Digits(d) == [ZERO + d];
    } else {
      k := DigitsOfValue(first);
      if Value(first) == 0 {
        k := k + 1;
      } else {
        Assoc(Zeros(k), Digits(Value(first)), [ZERO + d]);
      }
    }
  }

  lemma {:induction false} ValueAfterZeros(k: nat, s: seq<Byte>)
    requires AllDigits(s)
    ensures AllDigits(Zeros(k) + s) && Value(Zeros(k) + s) == Value(s)
    decreases k, |s|
  {
    ZerosFirst(k);
    if s == [] {
      assert Zeros(k) + s == Zeros(k);
      if k > 0 {
        ValueAfterZeros(k - 1, []);
        assert Zeros(k - 1) + [] == Zeros(k - 1) == Zeros(k)[..k - 1];
      }
    } else {
      assert (Zeros(k) + s)[..k + |s| - 1] == Zeros(k) + s[..|s| - 1];
      ValueAfterZeros(k, s[..|s| - 1]);
    }
  }

  /** The text is a number, after an optional sign and any zeros. */
  ghost predicate IsTextOf(s: seq<Byte>, n: int) {
    exists k: nat ::
      || (n >= 0 && s == Zeros(k) + Digits(n))
      || (n >= 0 && s == [43] + (Zeros(k) + Digits(n)))
      || (n <= 0 && s == [45] + (Zeros(k) + Digits(-n)))
  }

  lemma ReadTextOf(s: seq<Byte>, n: int, k: nat)
    requires || (n >= 0 && s == Zeros(k) + Digits(n))
             || (n >= 0 && s == [43] + (Zeros(k) + Digits(n)))
             || (n <= 0 && s == [45] + (Zeros(k) + Digits(-n)))
    ensures Atoi(s) == if MIN_INT <= n <= MAX_INT then Some(n) else None
  {
    hide Digits, Value, Zeros;
    var digits := Digits(if n < 0 then -n else n);
    ValueAfterZeros(k, digits);
    ValueOfDigits(if n < 0 then -n else n);
    var all := Zeros(k) + digits;
    assert IsDigit(all[0]);
    if s != all {
      assert s[1..] == all;
    }
  }

  /** A text reads as a number exactly when it is the number's text, with an optional sign and any zeros
      before it, and the number has 64 bits. */
  lemma AtoiExactly(s: seq<Byte>, n: int)
    ensures Atoi(s) == Some(n) <==>
            -9223372036854775808 <= n <= 9223372036854775807 && IsTextOf(s, n)
  {
    hide Digits, Value, Zeros;
    if Atoi(s) == Some(n) {
      var signed := s[0] == MINUS || s[0] == PLUS;
      var digits := if signed then s[1..] else s;
      var k := DigitsOfValue(digits);
      assert s == if signed then [s[0]] + digits else digits;
    } else if IsTextOf(s, n) {
      var k: nat :| || (n >= 0 && s == Zeros(k) + Digits(n))
                    || (n >= 0 && s == [43] + (Zeros(k) + Digits(n)))
                    || (n <= 0 && s == [45] + (Zeros(k) + Digits(-n)));
      ReadTextOf(s, n, k);
    }
  }

  /** One more takes at most one more digit, and never fewer. */
  lemma {:induction false} DigitsStep(n: nat)
    ensures |Digits(n)| <= |Digits(n + 1)| <= |Digits(n)| + 1
  {
    if n >= 10 && (n + 1) / 10 != n / 10 {
      assert (n + 1) / 10 == n / 10 + 1;
      DigitsStep(n / 10);
    }
  }

  /** The decimal length grows no faster than the number. */
  lemma {:induction false} DigitsGrowth(n: nat, k: nat)
    ensures |Digits(n)| <= |Digits(n + k)| <= |Digits(n)| + k
    decreases k
  {
    if k > 0 {
      DigitsGrowth(n, k - 1);
      DigitsStep(n + k - 1);
    }
  }

  function Pow10(k: nat): nat {
    if k == 0 then 1 else 10 * Pow10(k - 1)
  }

  lemma {:induction false} DigitsBound(n: nat, k: nat)
    requires k >= 1 && n < Pow10(k)
    ensures |Digits(n)| <= k
  {
    if n >= 10 {
      assert k >= 2;
      DigitsBound(n / 10, k - 1);
    }
  }
}
