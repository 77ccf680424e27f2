/**
 The random part of temp names (`random_hex` of util.rs). Whichever source the number
 comes from, it is printed with at least `width` hexadecimal digits.
 */
module RandomHex {
  import opened MutationProtocol

  const WORD: nat := 0x1_0000_0000_0000_0000

  function Digit(d: nat): char
    requires d < 16
  {
    "0123456789abcdef"[d]
  }

  /** `{:0width$x}` */
  function Hex(n: nat, width: nat): string {
    if n == 0 && width == 0 then "" else Hex(n / 16, if width == 0 then 0 else width - 1) + [Digit(n % 16)]
  }

  predicate IsDigit(c: char) {
    '0' <= c <= '9' || 'a' <= c <= 'f'
  }

  function DigitValue(c: char): nat
    requires IsDigit(c)
  {
    if c <= '9' then c as int - '0' as int else c as int - 'a' as int + 10
  }

  predicate AllDigits(s: string) {
    forall i :: 0 <= i < |s| ==> IsDigit(s[i])
  }

  /** The number that a text of hexadecimal digits stands for. */
  function Value(s: string): nat
    requires AllDigits(s)
  {
    if s == "" then 0 else 16 * Value(s[..|s| - 1]) + DigitValue(s[|s| - 1])
  }

  function Power(k: nat): nat {
    if k == 0 then 1 else 16 * Power(k - 1)
  }

  lemma DigitOfValue(c: char)
    requires IsDigit(c)
    ensures DigitValue(c) < 16 && Digit(DigitValue(c)) == c
  {
  }

  lemma ValueOfDigit(d: nat)
    requires d < 16
    ensures IsDigit(Digit(d)) && DigitValue(Digit(d)) == d && (d != 0 ==> Digit(d) != '0')
  {
  }

  /** Printing and reading back; the length; no zero in front of a long number. */
  lemma {:induction false} HexRead(n: nat, width: nat, k: nat)
    requires width <= k && n < Power(k)
    ensures var s := Hex(n, width);
            && AllDigits(s) && Value(s) == n && width <= |s| <= k
            && (width < |s| ==> s[0] != '0')
    decreases k
  {
    if n != 0 || width != 0 {
      var shorter := if width == 0 then 0 else width - 1;
      HexRead(n / 16, shorter, k - 1);
      ValueOfDigit(n % 16);
      var front := Hex(n / 16, shorter);
      var s := front + [Digit(n % 16)];
      assert s[..|s| - 1] == front;
    }
  }

  lemma {:induction false} ValuePositive(s: string)
    requires AllDigits(s) && s != "" && s[0] != '0'
    ensures 0 < Value(s)
    decreases |s|
  {
    DigitOfValue(s[|s| - 1]);
    if 1 < |s| {
      ValuePositive(s[..|s| - 1]);
    }
  }

  lemma HexSplit(n: nat, d: nat, width: nat)
    requires d < 16 && (width == 0 ==> 0 < 16 * n + d)
    ensures Hex(16 * n + d, width) == Hex(n, if width == 0 then 0 else width - 1) + [Digit(d)]
  {
  }

  lemma OneMoreDigit(front: string, c: char, width: nat)
    requires AllDigits(front) && IsDigit(c) && Value(front) < Power(|front|)
    requires Hex(Value(front), if width == 0 then 0 else width - 1) == front
    requires width == 0 ==> 0 < Value(front + [c])
    ensures Value(front + [c]) < Power(|front + [c]|) && Hex(Value(front + [c]), width) == front + [c]
  {
    hide Digit, DigitValue, IsDigit, Hex;
    DigitOfValue(c);
    assert (front + [c])[..|front|] == front;
    HexSplit(Value(front), DigitValue(c), width);
  }

  lemma {:induction false} ReadHex(s: string, width: nat)
    requires AllDigits(s) && (|s| == width || (width < |s| && s[0] != '0'))
    ensures Value(s) < Power(|s|) && Hex(Value(s), width) == s
    decreases |s|
  {
    hide Digit, DigitValue, IsDigit;
    if s != "" {
      var front, c := s[..|s| - 1], s[|s| - 1];
      assert s == front + [c];
      ReadHex(front, if width == 0 then 0 else width - 1);
      if width == 0 {
        ValuePositive(s);
      }
      OneMoreDigit(front, c, width);
    }
  }

  lemma Powers()
    ensures Power(16) == WORD
  {
    assert Power(4) == 0x1_0000;
    assert Power(8) == 0x1_0000_0000;
    assert Power(12) == 0x1_0000_0000_0000;
  }

  lemma {:induction false} PowerMonotone(j: nat, k: nat)
    requires j <= k
    ensures Power(j) <= Power(k)
    decreases k
  {
    if j < k {
      PowerMonotone(j, k - 1);
    }
  }

  /** The random parts of temp names are exactly the 64-bit numbers printed with at
      least eight digits, and each stands for one number. */
  lemma RandomParts(s: string)
    ensures IsHex(s) <==> exists n: nat :: n < WORD && s == Hex(n, 8)
    ensures forall n: nat, m: nat :: n < WORD && m < WORD && Hex(n, 8) == Hex(m, 8) ==> n == m
  {
    hide Hex, Value, Power;
    Powers();
    if IsHex(s) {
      ReadHex(s, 8);
      PowerMonotone(|s|, 16);
    }
    forall n: nat | n < WORD
      ensures IsHex(Hex(n, 8)) && Value(Hex(n, 8)) == n
    {
      HexRead(n, 8, 16);
    }
  }
}
