/** Numbers as the diagnostic strings print them: "%d" for the fallback names
    ("signal(-3)", "errno(200)", "SIGRT40"), and "0x" followed by lower-case hex
    digits for the protection-flag suffix. Each rendering comes with a parser that
    accepts exactly the canonical spellings, so a rendered string determines its
    number and vice versa. */
module Numerals {
  import opened Options
  import opened Bytes

  /** The digit character for d: '0'..'9', then 'a'..'f'. */
  function DigitChar(d: nat): (c: char)
    requires d < 16
    ensures c != '-'
  {
    if d < 10 then ('0' as int + d) as char else ('a' as int + (d - 10)) as char
  }

  /** The value of a digit character, if it is one. */
  function DigitValue(c: char): (d: Option<nat>)
    ensures d.Some? ==> d.value < 16 && DigitChar(d.value) == c
    ensures d.Some? <==> '0' <= c <= '9' || 'a' <= c <= 'f'
  {
    if '0' <= c <= '9' then Some(c as int - '0' as int)
    else if 'a' <= c <= 'f' then Some(c as int - 'a' as int + 10)
    else None
  }

  lemma DigitRoundTrip(d: nat)
    requires d < 16
    ensures DigitValue(DigitChar(d)) == Some(d)
  {
  }

  /** The digits of n in the given base, most significant first, without leading zeros. */
  function NatToString(n: nat, base: nat): (s: string)
    requires 2 <= base <= 16
    ensures 0 < |s|
    decreases n
  {
    if n < base then [DigitChar(n)] else NatToString(n / base, base) + [DigitChar(n % base)]
  }

  /** The value of a non-empty digit string read in the given base (leading zeros allowed). */
  function ParseDigits(s: string, base: nat): (n: Option<nat>)
    requires 2 <= base <= 16
    ensures n.Some? ==> 0 < |s|
    decreases |s|
  {
    if |s| == 0 then None
    else match DigitValue(s[|s| - 1])
      case None => None
      case Some(d) =>
        if d >= base then None
        else if |s| == 1 then Some(d)
        else match ParseDigits(s[..|s| - 1], base)
          case None => None
          case Some(h) => Some(h * base + d)
  }

  /** The value of a canonical digit string: non-empty, no leading zero unless it is "0". */
  function ParseNat(s: string, base: nat): (n: Option<nat>)
    requires 2 <= base <= 16
    ensures n.Some? ==> 0 < |s| && (|s| == 1 || s[0] != '0')
  {
    if |s| > 1 && s[0] == '0' then None else ParseDigits(s, base)
  }

  /** One step of ParseDigits: the last digit is added to the value of the rest. */
  lemma ParseDigitsLast(s: string, base: nat)
    requires 2 <= base <= 16 && 1 < |s| && ParseDigits(s, base).Some?
    ensures DigitValue(s[|s| - 1]).Some? && DigitValue(s[|s| - 1]).value < base
    ensures ParseDigits(s[..|s| - 1], base).Some?
    ensures ParseDigits(s, base).value
            == ParseDigits(s[..|s| - 1], base).value * base + DigitValue(s[|s| - 1]).value
  {
  }

  /** A digit string whose first digit is not zero has a positive value. */
  lemma {:induction false} ParseDigitsPositive(s: string, base: nat)
    requires 2 <= base <= 16
    requires ParseDigits(s, base).Some? && s[0] != '0'
    ensures ParseDigits(s, base).value > 0
    decreases |s|
  {
    if |s| > 1 {
      var t := s[..|s| - 1];
      assert t[0] == s[0];
      ParseDigitsPositive(t, base);
      ParseDigitsLast(s, base);
      MulAtLeast(ParseDigits(t, base).value, base);
    } else {
      assert DigitChar(0) == '0';
    }
  }

  /** Appending a digit multiplies the value by the base and adds the digit. */
  lemma ParseDigitsSnoc(t: string, d: nat, base: nat)
    requires 2 <= base <= 16 && d < base && ParseDigits(t, base).Some?
    ensures ParseDigits(t + [DigitChar(d)], base) == Some(ParseDigits(t, base).value * base + d)
  {
    var s := t + [DigitChar(d)];
    DigitRoundTrip(d);
    assert s[..|s| - 1] == t;
  }

  /** A rendering starts with a digit, and with a zero only when the number is zero. */
  lemma {:induction false} NatToStringLeading(m: nat, base: nat)
    requires 2 <= base <= 16
    ensures DigitValue(NatToString(m, base)[0]).Some?
    ensures 0 < m ==> NatToString(m, base)[0] != '0'
    decreases m
  {
    if m < base {
      DigitRoundTrip(m);
      DigitRoundTrip(0);
    } else {
      DivShrinks(m, base);
      NatToStringLeading(m / base, base);
    }
  }

  /** Reading back the digits of n gives n. */
  lemma {:induction false} ParseNatToString(n: nat, base: nat)
    requires 2 <= base <= 16
    ensures ParseNat(NatToString(n, base), base) == Some(n)
    decreases n
  {
    var s := NatToString(n, base);
    if n < base {
      DigitRoundTrip(n);
    } else {
      var h, d := n / base, n % base;
      var t := NatToString(h, base);
      assert s == t + [DigitChar(d)];
      DivShrinks(n, base);
      ParseNatToString(h, base);
      ParseDigitsSnoc(t, d, base);
      NatToStringLeading(h, base);
      assert s[0] == t[0];
    }
  }

  /** A canonical digit string is the rendering of the number it denotes. */
  lemma {:induction false} NatToStringParseNat(s: string, base: nat)
    requires 2 <= base <= 16
    requires ParseNat(s, base).Some?
    ensures NatToString(ParseNat(s, base).value, base) == s
    decreases |s|
  {
    var n := ParseNat(s, base).value;
    if |s| > 1 {
      var t := s[..|s| - 1];
      var c := s[|s| - 1];
      ParseDigitsLast(s, base);
      var h, d := ParseDigits(t, base).value, DigitValue(c).value;
      assert t[0] == s[0];
      ParseDigitsPositive(t, base);
      MulAtLeast(h, base);
      assert ParseNat(t, base) == Some(h);
      NatToStringParseNat(t, base);
      DivModOf(n, base, h, d);
      assert NatToString(n, base) == NatToString(h, base) + [DigitChar(d)];
      assert s == t + [c];
    }
  }

  /** Dropping the last digit of a positive number makes it smaller, and putting
      it back restores the number. */
  lemma DivShrinks(n: int, base: int)
    requires 0 < n && 2 <= base
    ensures 0 <= n / base < n && 0 <= n % base < base
    ensures n / base * base + n % base == n
  {
  }

  /** The quotient and remainder of h * base + d, for a digit d. */
  lemma DivModOf(n: int, base: int, h: int, d: int)
    requires base > 0 && 0 <= d < base && n == h * base + d
    ensures n / base == h && n % base == d
  {
    ModOfMultiplePlus(n, base, h, d);
  }

  /** n as C's "%d" prints it. */
  function DecimalString(n: int): (s: string)
    ensures 0 < |s|
  {
    if n < 0 then "-" + NatToString(-n, 10) else NatToString(n, 10)
  }

  /** The number a canonical "%d" spelling denotes: an optional minus sign (not
      before zero) followed by canonical decimal digits. */
  function ParseDecimal(s: string): (n: Option<int>)
    ensures n.Some? ==> 0 < |s|
  {
    if 0 < |s| && s[0] == '-' then
      match ParseNat(s[1..], 10)
      case Some(m) => if m == 0 then None else Some(-(m as int))
      case None => None
    else
      match ParseNat(s, 10)
      case Some(m) => Some(m)
      case None => None
  }

  /** Reading back a "%d" spelling gives the number. */
  lemma ParseDecimalString(n: int)
    ensures ParseDecimal(DecimalString(n)) == Some(n)
  {
    var s := DecimalString(n);
    if n < 0 {
      var digits := NatToString(-n, 10);
      assert s[1..] == digits;
      ParseNatToString(-n, 10);
    } else {
      ParseNatToString(n, 10);
      NatToStringLeading(n, 10);
    }
  }

  /** A canonical "%d" spelling is the spelling of the number it denotes. */
  lemma DecimalStringParse(s: string)
    requires ParseDecimal(s).Some?
    ensures DecimalString(ParseDecimal(s).value) == s
  {
    if s[0] == '-' {
      NatToStringParseNat(s[1..], 10);
      assert s == "-" + s[1..];
    } else {
      NatToStringParseNat(s, 10);
    }
  }

  /** "%d" spellings and integers correspond one to one. */
  lemma DecimalExact(s: string, n: int)
    ensures ParseDecimal(s) == Some(n) <==> s == DecimalString(n)
  {
    ParseDecimalString(n);
    if ParseDecimal(s).Some? {
      DecimalStringParse(s);
    }
  }

  /** v as rr's HEX() prints it: "0x" and lower-case hex digits. */
  function HexString(v: nat): (s: string)
    ensures 2 < |s|
  {
    "0x" + NatToString(v, 16)
  }

  function ParseHex(s: string): (v: Option<nat>)
    ensures v.Some? ==> 2 < |s|
  {
    if 2 <= |s| && s[..2] == "0x" then ParseNat(s[2..], 16) else None
  }

  /** Hex spellings and natural numbers correspond one to one. */
  lemma HexExact(s: string, v: nat)
    ensures ParseHex(s) == Some(v) <==> s == HexString(v)
  {
    if s == HexString(v) {
      assert s[..2] == "0x" && s[2..] == NatToString(v, 16);
      ParseNatToString(v, 16);
    }
    if ParseHex(s) == Some(v) {
      NatToStringParseNat(s[2..], 16);
      assert s == s[..2] + s[2..];
    }
  }

  /** A fallback name: the number in "%d" between a fixed prefix and suffix. */
  function Wrap(prefix: string, n: int, suffix: string): (s: string)
    ensures |s| > |prefix| + |suffix|
  {
    prefix + DecimalString(n) + suffix
  }

  /** The number a fallback name embeds, if s has that form. */
  function Unwrap(prefix: string, suffix: string, s: string): (n: Option<int>)
    ensures n.Some? ==> |s| > |prefix| + |suffix| && s[..|prefix|] == prefix
  {
    if |s| >= |prefix| + |suffix| && s[..|prefix|] == prefix && s[|s| - |suffix|..] == suffix
    then ParseDecimal(s[|prefix| .. |s| - |suffix|])
    else None
  }

  /** Reading back a fallback name gives the number it was made from. */
  lemma UnwrapWrap(prefix: string, suffix: string, n: int)
    ensures Unwrap(prefix, suffix, Wrap(prefix, n, suffix)) == Some(n)
  {
    var digits := DecimalString(n);
    var s := prefix + digits + suffix;
    assert s[..|prefix|] == prefix;
    assert s[|s| - |suffix|..] == suffix;
    assert s[|prefix| .. |s| - |suffix|] == digits;
    ParseDecimalString(n);
  }

  /** A string that unwraps to a number is the fallback name of that number. */
  lemma WrapUnwrap(prefix: string, suffix: string, s: string)
    requires Unwrap(prefix, suffix, s).Some?
    ensures Wrap(prefix, Unwrap(prefix, suffix, s).value, suffix) == s
  {
    var mid := s[|prefix| .. |s| - |suffix|];
    DecimalStringParse(mid);
    assert s == s[..|prefix|] + mid + s[|s| - |suffix|..];
  }

  /** Fallback names and the numbers they embed correspond one to one. */
  lemma UnwrapExact(prefix: string, suffix: string, s: string, n: int)
    ensures Unwrap(prefix, suffix, s) == Some(n) <==> s == Wrap(prefix, n, suffix)
  {
    UnwrapWrap(prefix, suffix, n);
    if Unwrap(prefix, suffix, s).Some? {
      WrapUnwrap(prefix, suffix, s);
    }
  }

  /** A string that differs from the prefix at some position is no fallback name. */
  lemma UnwrapMismatch(prefix: string, suffix: string, s: string, i: nat)
    requires i < |prefix| && i < |s| && s[i] != prefix[i]
    ensures Unwrap(prefix, suffix, s) == None
  {
    if |s| >= |prefix| + |suffix| {
      assert s[..|prefix|][i] != prefix[i];
    }
  }
}
