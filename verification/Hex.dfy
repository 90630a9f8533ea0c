// Numbers printed with the format `{:016x}`.

module Hex {
  import opened Words

  function HexDigit(d: nat): char
    requires d < 16
  {
    "0123456789abcdef"[d]
  }

  function Digits(n: nat, width: nat): string {
    if width == 0 then "" else Digits(n / 16, width - 1) + [HexDigit(n % 16)]
  }

  /** The format `{:x}`. */
  function Short(n: nat): string {
    if n < 16 then [HexDigit(n)] else Short(n / 16) + [HexDigit(n % 16)]
  }

  function Hex16(n: U64): string {
    Digits(n, 16)
  }

  function Pow16(width: nat): nat {
    if width == 0 then 1 else 16 * Pow16(width - 1)
  }

  ghost predicate IsHexDigit(c: char) {
    '0' <= c <= '9' || 'a' <= c <= 'f'
  }

  /** The number that a string of lower-case hexadecimal digits stands for. */
  ghost function HexValue(s: string): int {
    if s == "" then 0
    else
      var c := s[|s| - 1];
      16 * HexValue(s[..|s| - 1]) + (if c <= '9' then c as int - 0x30 else c as int - 0x61 + 10)
  }

  ghost predicate AllHexDigits(s: string) {
    forall i | 0 <= i < |s| :: IsHexDigit(s[i])
  }

  lemma HexDigitValue(d: nat)
    requires d < 16
    ensures IsHexDigit(HexDigit(d)) && HexValue([HexDigit(d)]) == d
    ensures HexDigit(d) == '0' <==> d == 0
  {
    assert [HexDigit(d)][..0] == "";
  }

  lemma HexValuePush(front: string, d: nat)
    requires d < 16
    ensures HexValue(front + [HexDigit(d)]) == 16 * HexValue(front) + d
    ensures AllHexDigits(front) ==> AllHexDigits(front + [HexDigit(d)])
  {
    HexDigitValue(d);
    var s := front + [HexDigit(d)];
    assert s[..|s| - 1] == front && s[|s| - 1] == HexDigit(d);
  }

  lemma DropDigit(n: nat, bound: nat)
    requires n < 16 * bound
    ensures n / 16 < bound && 16 * (n / 16) + n % 16 == n
  {
  }

  /** A number below 16^width is printed with that many lower-case digits that stand for it. */
  lemma {:induction false} DigitsExactly(n: nat, width: nat)
    requires n < Pow16(width)
    ensures var s := Digits(n, width);
            |s| == width && AllHexDigits(s) && HexValue(s) == n
  {
    if width == 0 {
    } else {
      DropDigit(n, Pow16(width - 1));
      DigitsExactly(n / 16, width - 1);
      HexValuePush(Digits(n / 16, width - 1), n % 16);
    }
  }

  /** The short form is the same without leading zeros. */
  lemma {:induction false} ShortExactly(n: nat)
    ensures var s := Short(n);
            && |s| >= 1 && AllHexDigits(s) && HexValue(s) == n
            && (s[0] == '0' <==> n == 0)
  {
    HexDigitValue(n % 16);
    if n >= 16 {
      ShortExactly(n / 16);
      HexValuePush(Short(n / 16), n % 16);
    }
  }

  lemma HexDigitInjective(d: nat, e: nat)
    requires d < 16 && e < 16 && HexDigit(d) == HexDigit(e)
    ensures d == e
  {
  }

  lemma {:induction false} DigitsInjective(a: nat, b: nat, width: nat)
    requires a < Pow16(width) && b < Pow16(width) && Digits(a, width) == Digits(b, width)
    ensures a == b
  {
    if width == 0 {
    } else {
      var s, t := Digits(a / 16, width - 1), Digits(b / 16, width - 1);
      DigitsLength(a / 16, width - 1);
      DigitsLength(b / 16, width - 1);
      assert (s + [HexDigit(a % 16)])[..width - 1] == s && (t + [HexDigit(b % 16)])[..width - 1] == t;
      assert (s + [HexDigit(a % 16)])[width - 1] == HexDigit(a % 16);
      assert (t + [HexDigit(b % 16)])[width - 1] == HexDigit(b % 16);
      HexDigitInjective(a % 16, b % 16);
      DigitsInjective(a / 16, b / 16, width - 1);
    }
  }

  lemma {:induction false} DigitsLength(n: nat, width: nat)
    ensures |Digits(n, width)| == width
  {
    if width == 0 {
    } else {
      DigitsLength(n / 16, width - 1);
    }
  }

  /** Different numbers print differently. */
  lemma Hex16Injective(a: U64, b: U64)
    requires Hex16(a) == Hex16(b)
    ensures a == b
  {
    assert Pow16(16) == MODULUS by {
      assert Pow16(4) == 0x1_0000;
      assert Pow16(8) == 0x1_0000 * Pow16(4);
      assert Pow16(12) == 0x1_0000 * Pow16(8);
    }
    DigitsInjective(a, b, 16);
  }
}
