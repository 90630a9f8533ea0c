// Decimal numbers, as `Display` prints them and `str::parse` reads them.

module Decimal {
  import opened Options
  import opened Words

  function DigitChar(d: nat): char
    requires d < 10
  {
    "0123456789"[d]
  }

  predicate IsDigit(c: char) {
    '0' <= c <= '9'
  }

  function DigitValue(c: char): nat
    requires IsDigit(c)
  {
    c as int - '0' as int
  }

  function Print(n: nat): string {
    if n < 10 then [DigitChar(n)] else Print(n / 10) + [DigitChar(n % 10)]
  }

  /** The value of a nonempty run of digits. */
  function Value(s: string): Option<nat> {
    if s == "" || !IsDigit(s[|s| - 1]) then None
    else if |s| == 1 then Some(DigitValue(s[0]))
    else
      match Value(s[..|s| - 1])
      case None => None
      case Some(v) => Some(10 * v + DigitValue(s[|s| - 1]))
  }

  /** `parse::<u64>()`: an optional plus sign, then digits whose value is a u64. */
  function ParseU64(s: string): Option<U64> {
    var digits := if s != "" && s[0] == '+' then s[1..] else s;
    match Value(digits)
    case None => None
    case Some(v) => if v <= MAX then Some(v) else None
  }

  lemma DigitCharValue(d: nat)
    requires d < 10
    ensures IsDigit(DigitChar(d)) && DigitValue(DigitChar(d)) == d
  {
  }

  lemma {:induction false} PrintValue(n: nat)
    ensures Print(n) != "" && IsDigit(Print(n)[0]) && Value(Print(n)) == Some(n)
  {
    DigitCharValue(n % 10);
    if n >= 10 {
      PrintValue(n / 10);
      assert Print(n)[..|Print(n)| - 1] == Print(n / 10);
    }
  }

  /** Printing a u64 and parsing it back gives the number. */
  lemma PrintParse(n: U64)
    ensures ParseU64(Print(n)) == Some(n)
  {
    PrintValue(n);
  }

  /** A string has a value exactly when it is a nonempty run of ASCII digits. */
  lemma {:induction false} ValueExists(s: string)
    ensures Value(s).Some? <==> s != "" && forall i | 0 <= i < |s| :: '0' <= s[i] <= '9'
    ensures |s| == 1 && Value(s).Some? ==> Value(s).value == s[0] as int - 0x30
  {
    if |s| > 1 {
      ValueExists(s[..|s| - 1]);
    }
  }

  /** The first digit counts for its power of ten. */
  lemma {:induction false} ValueLeads(s: string)
    requires |s| > 1 && Value(s).Some?
    ensures Value(s[1..]).Some? && Value(s).value == PowerOfTen(|s| - 1) * (s[0] as int - 0x30) + Value(s[1..]).value
  {
    var front, tail := s[..|s| - 1], s[1..];
    assert tail[..|tail| - 1] == front[1..];
    if |s| > 2 {
      ValueLeads(front);
      var p, d := PowerOfTen(|s| - 2), front[0] as int - 0x30;
      assert 10 * (p * d) == PowerOfTen(|s| - 1) * d;
    } else {
      assert PowerOfTen(1) == 10;
    }
  }

  ghost function PowerOfTen(n: nat): nat {
    if n == 0 then 1 else 10 * PowerOfTen(n - 1)
  }

  /** A number is read from a nonempty run of ASCII digits of u64 size, with or without a plus
      sign before it, and from nothing else. */
  lemma ParseExactly(s: string)
    ensures var digits := if "+" <= s then s[1..] else s;
            && (Value(digits).Some? <==> digits != "" && forall i | 0 <= i < |digits| :: '0' <= digits[i] <= '9')
            && (ParseU64(s).Some? <==> Value(digits).Some? && Value(digits).value <= 0xFFFF_FFFF_FFFF_FFFF)
            && (ParseU64(s).Some? ==> Value(digits) == Some(ParseU64(s).value))
  {
    ValueExists(if "+" <= s then s[1..] else s);
  }

  lemma {:induction false} PrintIsDigits(n: nat)
    ensures forall i | 0 <= i < |Print(n)| :: IsDigit(Print(n)[i])
    ensures Print(n) != "" && (Print(n)[0] == '0' <==> n == 0)
  {
    DigitCharValue(n % 10);
    if n >= 10 {
      PrintIsDigits(n / 10);
    }
  }
}
