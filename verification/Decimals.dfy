/** Decimal digits: how numbers are printed, and how digits are read. */
module Decimals {
  import opened Options

  predicate Digit(ch: char) {
    '0' <= ch <= '9'
  }

  predicate Digits(s: string) {
    forall i :: 0 <= i < |s| ==> Digit(s[i])
  }

  /** String(n) */
  function Decimal(n: nat): string {
    var digit := [('0' as int + n % 10) as char];
    if n < 10 then digit else Decimal(n / 10) + digit
  }

  function DigitValue(ch: char): nat {
    if Digit(ch) then ch as int - '0' as int else 0
  }

  /** What digits denote, leading zeros allowed. */
  function Value(s: string): nat {
    if s == "" then 0 else 10 * Value(s[..|s| - 1]) + DigitValue(s[|s| - 1])
  }

  function Pow10(k: nat): (p: nat)
    ensures p >= 1
  {
    if k == 0 then 1 else 10 * Pow10(k - 1)
  }

  function Zeros(k: nat): (s: string)
    ensures |s| == k
  {
    if k == 0 then "" else Zeros(k - 1) + "0"
  }

  /** s.padStart(width, "0") */
  function PadStart(s: string, width: nat): (p: string)
    ensures |p| == if |s| < width then width else |s|
  {
    if |s| < width then Zeros(width - |s|) + s else s
  }

  lemma {:induction false} ValueOfDecimal(n: nat)
    ensures Decimal(n) != "" && Digits(Decimal(n)) && Value(Decimal(n)) == n
  {
    var s := Decimal(n);
    if n >= 10 {
      ValueOfDecimal(n / 10);
      assert s[..|s| - 1] == Decimal(n / 10);
    } else {
      assert s[..0] == "";
    }
  }

  /** A number is printed in one way. */
  lemma DecimalInjective(a: nat, b: nat)
    requires Decimal(a) == Decimal(b)
    ensures a == b
  {
    ValueOfDecimal(a);
    ValueOfDecimal(b);
  }

  lemma {:induction false} ValueConcat(a: string, b: string)
    ensures Value(a + b) == Value(a) * Pow10(|b|) + Value(b)
    decreases |b|
  {
    if b == "" {
      assert a + b == a;
    } else {
      var c := b[..|b| - 1];
      ValueConcat(a, c);
      assert (a + b)[..|a + b| - 1] == a + c;
      TenTimes(Value(a), Pow10(|c|), Value(c));
    }
  }

  lemma TenTimes(v: nat, p: nat, w: nat)
    ensures 10 * (v * p + w) == v * (10 * p) + 10 * w
  {
  }

  lemma {:induction false} ValueOfZeros(k: nat)
    ensures Digits(Zeros(k)) && Value(Zeros(k)) == 0
  {
    if k > 0 {
      assert Zeros(k)[..k - 1] == Zeros(k - 1);
      ValueOfZeros(k - 1);
    }
  }

  lemma ValueOfPadded(s: string, width: nat)
    requires Digits(s)
    ensures Value(PadStart(s, width)) == Value(s) && Digits(PadStart(s, width))
  {
    if |s| < width {
      ValueConcat(Zeros(width - |s|), s);
      ValueOfZeros(width - |s|);
      assert 0 * Pow10(|s|) == 0;
    }
  }

  /** A number below 10^k takes at most k digits. */
  lemma {:induction false} DecimalWidth(n: nat, k: nat)
    requires n < Pow10(k) && k > 0
    ensures |Decimal(n)| <= k
  {
    assert Pow10(0) == 1 && Pow10(1) == 10;
    if n >= 10 {
      DecimalWidth(n / 10, k - 1);
    }
  }

  // ---------------------------------------------------------------- reading

  /** Where the run of digits at i ends. */
  function SkipDigits(s: string, i: nat): (j: nat)
    requires i <= |s|
    ensures i <= j <= |s|
    decreases |s| - i
  {
    if i < |s| && Digit(s[i]) then SkipDigits(s, i + 1) else i
  }

  /** A number read off the front of a text, and what follows it. */
  datatype Read = Read(digits: string, rest: string)

  function TakeDigits(s: string): (r: Option<Read>)
    ensures r.Some? ==> r.value.digits != "" && |r.value.rest| < |s|
  {
    var k := SkipDigits(s, 0);
    if k == 0 then None else Some(Read(s[..k], s[k..]))
  }

  function After(s: string, prefix: string): (r: Option<string>) {
    if prefix <= s then Some(s[|prefix|..]) else None
  }

  lemma {:induction false} SkipsDigits(s: string, i: nat, k: nat)
    requires i <= k <= |s| && (forall j :: i <= j < k ==> Digit(s[j])) && (k < |s| ==> !Digit(s[k]))
    ensures SkipDigits(s, i) == k
    decreases k - i
  {
    if i < k { SkipsDigits(s, i + 1, k); }
  }

  lemma TakeDigitsBack(digits: string, rest: string)
    requires digits != "" && Digits(digits) && (rest == "" || !Digit(rest[0]))
    ensures TakeDigits(digits + rest) == Some(Read(digits, rest))
  {
    SkipsDigits(digits + rest, 0, |digits|);
  }

  lemma AfterBack(prefix: string, rest: string)
    ensures After(prefix + rest, prefix) == Some(rest)
  {
    assert (prefix + rest)[..|prefix|] == prefix;
  }
}
