/** `hex_value`, the parser for `--exclude <OFFSET>`: text after a leading
    `0x` is read in base 16, any other text in base 10, into a `u32`, with the
    rules of Rust's `u32::from_str_radix`. */
module OffsetParser {
  import opened Base

  /** The kinds of `ParseIntError` that `u32::from_str_radix` reports. */
  datatype IntErrorKind = Empty | InvalidDigit | PosOverflow

  predicate SupportedRadix(radix: nat) {
    radix == 10 || radix == 16
  }

  /** `char::to_digit(radix)`: decimal digits, and for base 16 the letters
      a-f in either case. */
  function DigitValue(c: char, radix: nat): (d: Option<nat>)
    requires SupportedRadix(radix)
    ensures d.Some? ==> d.value < radix
  {
    if '0' <= c <= '9' then Some(c as int - '0' as int)
    else if radix == 16 && 'a' <= c <= 'f' then Some(c as int - 'a' as int + 10)
    else if radix == 16 && 'A' <= c <= 'F' then Some(c as int - 'A' as int + 10)
    else None
  }

  /** The lower-case digit for `d`; reading it back gives `d`. */
  function DigitChar(d: nat, radix: nat): (c: char)
    requires SupportedRadix(radix) && d < radix
    ensures DigitValue(c, radix) == Some(d)
  {
    if d < 10 then ('0' as int + d) as char else ('a' as int + d - 10) as char
  }

  predicate AllDigits(s: string, radix: nat)
    requires SupportedRadix(radix)
  {
    forall i | 0 <= i < |s| :: DigitValue(s[i], radix).Some?
  }

  /** The number a string of digits denotes, most significant digit first. */
  function Value(s: string, radix: nat): nat
    requires SupportedRadix(radix) && AllDigits(s, radix)
  {
    if s == [] then 0
    else Value(s[..|s| - 1], radix) * radix + DigitValue(s[|s| - 1], radix).value
  }

  /** The position of the first character that is not a digit, or `|s|`. */
  function FirstInvalid(s: string, radix: nat): (k: nat)
    requires SupportedRadix(radix)
    ensures k <= |s| && AllDigits(s[..k], radix)
    ensures k < |s| ==> DigitValue(s[k], radix).None?
  {
    if s == [] || DigitValue(s[0], radix).None? then 0
    else
      var k := 1 + FirstInvalid(s[1..], radix);
      assert forall i | 1 <= i < k :: s[..k][i] == s[1..][..k - 1][i - 1];
      k
  }

  /** What the digits of a number denote: the digits up to the first
      non-digit are read, and their value decides between `PosOverflow`,
      `InvalidDigit` (a non-digit follows) and the number itself. */
  function ReadDigits(digits: string, radix: nat): Result<u32, IntErrorKind>
    requires SupportedRadix(radix)
  {
    var k := FirstInvalid(digits, radix);
    var v := Value(digits[..k], radix);
    if v > U32_MAX then Err(PosOverflow)
    else if k < |digits| then Err(InvalidDigit)
    else Ok(v)
  }

  /** What `u32::from_str_radix` returns, stated on positional value: empty
      text is `Empty`; otherwise one leading `+` is dropped unless it is all
      there is, and the rest is read as digits. */
  function Expected(src: string, radix: nat): Result<u32, IntErrorKind>
    requires SupportedRadix(radix)
  {
    if src == [] then Err(Empty)
    else ReadDigits(if src[0] == '+' && |src| > 1 then src[1..] else src, radix)
  }

  // ---------------------------------------------------------------------------
  // The parser as the standard library runs it
  // ---------------------------------------------------------------------------

  /** The digit loop of `from_str_radix`: for each character, the digit check
      comes first, then the checked multiply-and-add. */
  function Accumulate(digits: string, radix: nat, acc: u32): (r: Result<u32, IntErrorKind>)
    requires SupportedRadix(radix)
    ensures r != Err(Empty)
    decreases |digits|
  {
    if digits == [] then Ok(acc)
    else match DigitValue(digits[0], radix)
      case None => Err(InvalidDigit)
      case Some(d) =>
        if acc * radix + d > U32_MAX then Err(PosOverflow)
        else Accumulate(digits[1..], radix, acc * radix + d)
  }

  /** `u32::from_str_radix(src, radix)`. For an unsigned type a leading `-`
      is not a sign, so it is read as a digit and rejected. */
  function FromStrRadix(src: string, radix: nat): (r: Result<u32, IntErrorKind>)
    requires SupportedRadix(radix)
    ensures r == Err(Empty) <==> src == []
  {
    if src == [] then Err(Empty)
    else if (src[0] == '+' || src[0] == '-') && |src| == 1 then Err(InvalidDigit)
    else if src[0] == '+' then Accumulate(src[1..], radix, 0)
    else Accumulate(src, radix, 0)
  }

  predicate HasHexPrefix(s: string) {
    |s| >= 2 && s[..2] == "0x"
  }

  /** `hex_value` */
  function HexValue(s: string): Result<u32, IntErrorKind>
  {
    if HasHexPrefix(s) then FromStrRadix(s[2..], 16) else FromStrRadix(s, 10)
  }

  // ---------------------------------------------------------------------------
  // Properties
  // ---------------------------------------------------------------------------

  /** A longer run of digits never has a smaller value. */
  lemma {:induction false} ValueMonotone(s: string, radix: nat, j: nat, k: nat)
    requires SupportedRadix(radix) && j <= k <= |s| && AllDigits(s[..k], radix)
    ensures AllDigits(s[..j], radix) && Value(s[..j], radix) <= Value(s[..k], radix)
    decreases k - j
  {
    assert forall i | 0 <= i < j :: s[..j][i] == s[..k][i];
    if j < k {
      assert s[..k][..k - 1] == s[..k - 1];
      ValueMonotone(s, radix, j, k - 1);
    }
  }

  /** The first non-digit comes after a run of digits that is already known. */
  lemma FirstInvalidAfterDigits(digits: string, radix: nat, i: nat)
    requires SupportedRadix(radix) && i <= |digits| && AllDigits(digits[..i], radix)
    ensures i <= FirstInvalid(digits, radix)
  {
  }

  /** One more digit multiplies the value by the base and adds the digit. */
  lemma ValueSnoc(digits: string, radix: nat, i: nat)
    requires SupportedRadix(radix) && i < |digits| && AllDigits(digits[..i], radix)
    requires DigitValue(digits[i], radix).Some?
    ensures AllDigits(digits[..i + 1], radix)
    ensures Value(digits[..i + 1], radix) ==
      Value(digits[..i], radix) * radix + DigitValue(digits[i], radix).value
  {
    assert digits[..i + 1][..i] == digits[..i];
    assert forall j | 0 <= j < i :: digits[..i + 1][j] == digits[..i][j];
  }

  /** When the digits read so far end the run of digits, `ReadDigits` reports
      an overflow or a stray character, or returns their value. */
  lemma ReadDigitsStops(digits: string, radix: nat, i: nat)
    requires SupportedRadix(radix) && i <= |digits| && AllDigits(digits[..i], radix)
    requires i == |digits| || DigitValue(digits[i], radix).None?
    ensures ReadDigits(digits, radix) ==
      if Value(digits[..i], radix) > U32_MAX then Err(PosOverflow)
      else if i < |digits| then Err(InvalidDigit)
      else Ok(Value(digits[..i], radix))
  {
    FirstInvalidAfterDigits(digits, radix, i);
  }

  /** Once the digits read so far overflow, `ReadDigits` reports the overflow. */
  lemma ReadDigitsOverflows(digits: string, radix: nat, i: nat)
    requires SupportedRadix(radix) && i <= |digits| && AllDigits(digits[..i], radix)
    requires Value(digits[..i], radix) > U32_MAX
    ensures ReadDigits(digits, radix) == Err(PosOverflow)
  {
    FirstInvalidAfterDigits(digits, radix, i);
    ValueMonotone(digits, radix, i, FirstInvalid(digits, radix));
  }

  /** The digit loop, started after the first `i` digits with their value,
      returns what `ReadDigits` says of the whole digit string. */
  lemma {:induction false} AccumulateFrom(digits: string, radix: nat, i: nat)
    requires SupportedRadix(radix) && i <= |digits|
    requires AllDigits(digits[..i], radix) && Value(digits[..i], radix) <= U32_MAX
    ensures Accumulate(digits[i..], radix, Value(digits[..i], radix)) == ReadDigits(digits, radix)
    decreases |digits| - i
  {
    if i == |digits| || DigitValue(digits[i], radix).None? {
      ReadDigitsStops(digits, radix, i);
      if i < |digits| {
        assert digits[i..][0] == digits[i];
      }
    } else {
      assert digits[i..][0] == digits[i];
      ValueSnoc(digits, radix, i);
      if Value(digits[..i + 1], radix) > U32_MAX {
        ReadDigitsOverflows(digits, radix, i + 1);
      } else {
        assert digits[i..][1..] == digits[i + 1..];
        AccumulateFrom(digits, radix, i + 1);
      }
    }
  }

  /** The standard library's parser agrees with `Expected` on every input. */
  lemma FromStrRadixMeaning(src: string, radix: nat)
    requires SupportedRadix(radix)
    ensures FromStrRadix(src, radix) == Expected(src, radix)
  {
    if src != [] {
      var digits := if src[0] == '+' && |src| > 1 then src[1..] else src;
      assert digits[..0] == [] && digits[0..] == digits;
      if |src| == 1 && (src[0] == '+' || src[0] == '-') {
        assert FirstInvalid(digits, radix) == 0;
      } else {
        AccumulateFrom(digits, radix, 0);
      }
    }
  }

  /** `hex_value` reads text after a lower-case `0x` in base 16 and any other
      text in base 10, with the meaning `Expected` gives. */
  lemma HexValueMeaning(s: string)
    ensures HasHexPrefix(s) ==> HexValue(s) == Expected(s[2..], 16)
    ensures !HasHexPrefix(s) ==> HexValue(s) == Expected(s, 10)
  {
    if HasHexPrefix(s) {
      FromStrRadixMeaning(s[2..], 16);
    } else {
      FromStrRadixMeaning(s, 10);
    }
  }

  /** `Empty` is reported for the empty string and for a bare `0x`, and for
      nothing else. */
  lemma HexValueEmpty(s: string)
    ensures HexValue(s) == Err(Empty) <==> s == "" || s == "0x"
  {
    HexValueMeaning(s);
    if s == "0x" {
      assert HasHexPrefix(s) && s[2..] == [];
    }
  }

  /** The prefix is case-sensitive: `0X…` is read in base 10 and fails at the `X`. */
  lemma UpperCasePrefixIsDecimal(rest: string)
    ensures HexValue("0X" + rest) == Err(InvalidDigit)
  {
    var s := "0X" + rest;
    assert s[..2] == "0X";
    HexValueMeaning(s);
    assert s[0] == '0' && s[1..][0] == 'X';
    assert FirstInvalid(s, 10) == 1;
    assert s[..1][..0] == [] && s[..1][0] == '0';
    assert Value(s[..1], 10) == 0;
    assert Expected(s, 10) == ReadDigits(s, 10);
  }

  /** The digits of `n` in the given base, most significant first, without
      leading zeros. */
  function ToDigits(n: nat, radix: nat): (s: string)
    requires SupportedRadix(radix)
    ensures |s| >= 1 && AllDigits(s, radix) && Value(s, radix) == n
    decreases n
  {
    if n < radix then [DigitChar(n, radix)]
    else
      var front := ToDigits(n / radix, radix);
      var s := front + [DigitChar(n % radix, radix)];
      assert s[..|s| - 1] == front;
      s
  }

  /** A string of digits is read back as its value when that fits in a `u32`,
      and is an overflow otherwise. */
  lemma AllDigitsRead(digits: string, radix: nat)
    requires SupportedRadix(radix) && digits != [] && AllDigits(digits, radix)
    ensures Expected(digits, radix) ==
      if Value(digits, radix) <= U32_MAX then Ok(Value(digits, radix)) else Err(PosOverflow)
  {
    assert DigitValue(digits[0], radix).Some?;
    var k := FirstInvalid(digits, radix);
    assert k == |digits|;
    assert digits[..k] == digits;
  }

  /** Writing a number in hexadecimal after `0x`, or in decimal, and parsing it
      with `hex_value` gives the number back when it fits in 32 bits, and an
      overflow error when it does not. */
  lemma HexValueRoundTrip(n: nat)
    ensures HexValue("0x" + ToDigits(n, 16)) == if n <= U32_MAX then Ok(n) else Err(PosOverflow)
    ensures HexValue(ToDigits(n, 10)) == if n <= U32_MAX then Ok(n) else Err(PosOverflow)
  {
    var hex := "0x" + ToDigits(n, 16);
    assert HasHexPrefix(hex) && hex[2..] == ToDigits(n, 16);
    HexValueMeaning(hex);
    AllDigitsRead(ToDigits(n, 16), 16);

    var dec := ToDigits(n, 10);
    if |dec| >= 2 {
      assert DigitValue(dec[1], 10).Some?;
      assert dec[..2][1] == dec[1];
    }
    HexValueMeaning(dec);
    AllDigitsRead(dec, 10);
  }
}
