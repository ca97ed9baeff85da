/** Decimal and hexadecimal text conversions (src/chromium/string_number_conversions.cc).

    A `char` stands for one byte of a C++ string.  The integer types are modelled by
    their size in bytes: `size` is 4 for `int` and 8 for `int64_t`.
  */
module NumberConversions {
  import opened Powers
  import opened Wrappers

  // ---------------------------------------------------------------------------------
  // Machine integers
  // ---------------------------------------------------------------------------------

  /** 2 to the number of bits of an integer of `size` bytes. */
  function Modulus(size: nat): (m: int)
    requires size == 4 || size == 8
  {
    if size == 4 then 0x1_0000_0000 else 0x1_0000_0000_0000_0000
  }

  function MinValue(size: nat): int
    requires size == 4 || size == 8
  {
    -(Modulus(size) / 2)
  }

  function MaxValue(size: nat): int
    requires size == 4 || size == 8
  {
    Modulus(size) / 2 - 1
  }

  predicate InRange(value: int, size: nat)
    requires size == 4 || size == 8
  {
    MinValue(size) <= value <= MaxValue(size)
  }

  /** A number kept in a 32-bit int: the value in range that is the same modulo 2^32. */
  function Wrap32(x: int): (r: int)
    ensures -0x8000_0000 <= r < 0x8000_0000 && (r - x) % 0x1_0000_0000 == 0
  {
    (x + 0x8000_0000) % 0x1_0000_0000 - 0x8000_0000
  }

  /** Two's complement negation: negating the minimum yields the minimum again. */
  function NegateWrapping(value: int, size: nat): int
    requires size == 4 || size == 8
    requires InRange(value, size)
  {
    if value == MinValue(size) then value else -value
  }

  /** The signed-to-unsigned cast applied to the (wrapping) absolute value. */
  function ToUnsigned(value: int, size: nat): int
    requires size == 4 || size == 8
    requires InRange(value, size)
  {
    (if value < 0 then NegateWrapping(value, size) else value) % Modulus(size)
  }

  function Abs(x: int): nat {
    if x < 0 then -x else x
  }

  /** The cast yields the true magnitude for every value, the minimum included, although
      negating the minimum does not. */
  lemma ToUnsignedIsMagnitude(value: int, size: nat)
    requires size == 4 || size == 8
    requires InRange(value, size)
    ensures ToUnsigned(value, size) == Abs(value)
  {
    if size == 4 {
      assert value == MinValue(4) ==> (value + 0x1_0000_0000) % 0x1_0000_0000 == 0x8000_0000;
    } else {
      assert value == MinValue(8) ==> (value + 0x1_0000_0000_0000_0000) % 0x1_0000_0000_0000_0000 == 0x8000_0000_0000_0000;
    }
  }

  // ---------------------------------------------------------------------------------
  // Decimal digits
  // ---------------------------------------------------------------------------------

  predicate IsDigit(c: char) {
    '0' <= c <= '9'
  }

  function DigitValue(c: char): nat
    requires IsDigit(c)
  {
    c as int - '0' as int
  }

  function DigitChar(d: nat): (c: char)
    requires d < 10
    ensures IsDigit(c) && DigitValue(c) == d
  {
    (d + '0' as int) as char
  }

  predicate AllDigits(s: string) {
    forall i :: 0 <= i < |s| ==> IsDigit(s[i])
  }

  /** The number a digit string denotes in base ten. */
  function DecimalValue(s: string): (v: int)
    requires AllDigits(s)
    ensures v >= 0
  {
    if s == [] then 0 else DecimalValue(s[..|s| - 1]) * 10 + DigitValue(s[|s| - 1])
  }

  /** The shortest digit string that denotes `n`. */
  function NatText(n: nat): (s: string)
  {
    if n < 10 then [DigitChar(n)] else NatText(n / 10) + [DigitChar(n % 10)]
  }

  /** The decimal text of an integer, as `IntToString` documents it. */
  function IntText(n: int): string {
    if n < 0 then "-" + NatText(-n) else NatText(n)
  }

  lemma {:induction false} NatTextValue(n: nat)
    ensures AllDigits(NatText(n)) && DecimalValue(NatText(n)) == n
    ensures NatText(n) != [] && (NatText(n)[0] == '0' ==> n == 0 && |NatText(n)| == 1)
  {
    if n >= 10 {
      NatTextValue(n / 10);
      var s := NatText(n);
      assert s[..|s| - 1] == NatText(n / 10);
    }
  }

  function Pow10(k: nat): (p: nat)
    ensures p > 0
  {
    if k == 0 then 1 else 10 * Pow10(k - 1)
  }

  /** The digit `i` places from the end of a number's text is its digit of weight 10^i. */
  lemma {:induction false} DigitOfPlace(n: nat, i: nat)
    requires i < |NatText(n)|
    ensures NatText(n)[|NatText(n)| - 1 - i] as int == '0' as int + n / Pow10(i) % 10
  {
    if i > 0 {
      DigitOfPlace(n / 10, i - 1);
      QuotientOfQuotient(n, 10, Pow10(i - 1));
    }
  }

  /** The first digit of a text counts 10^n, `n` being the number of digits after it. */
  lemma {:induction false} FirstDigitCounts(c: char, s: string)
    requires IsDigit(c) && AllDigits(s)
    ensures DecimalValue([c] + s) == (c as int - '0' as int) * Pow10(|s|) + DecimalValue(s)
  {
    var t := [c] + s;
    if s == [] {
      assert t[..0] == [];
    } else {
      var front := s[..|s| - 1];
      assert t[..|t| - 1] == [c] + front;
      FirstDigitCounts(c, front);
      assert (c as int - '0' as int) * Pow10(|front|) * 10 == (c as int - '0' as int) * Pow10(|s|);
    }
  }

  lemma {:induction false} NatTextLength(n: nat, k: nat)
    requires k > 0 && n < Pow10(k)
    ensures |NatText(n)| <= k
  {
    if n >= 10 {
      assert Pow10(0) == 1;
      NatTextLength(n / 10, k - 1);
    }
  }

  /** A 32-bit magnitude has at most 10 digits and a 64-bit one at most 20. */
  lemma MagnitudeLength(n: nat, size: nat)
    requires size == 4 || size == 8
    requires n < Modulus(size)
    ensures |NatText(n)| + 2 < 3 * size + 1
  {
    assert Pow10(10) == 10_000_000_000 by {
      assert Pow10(5) == 100_000;
      assert Pow10(8) == 100_000_000;
    }
    if size == 4 {
      NatTextLength(n, 10);
    } else {
      assert Pow10(13) == 10_000_000_000_000;
      assert Pow10(16) == 10_000_000_000_000_000;
      assert Pow10(20) == 100_000_000_000_000_000_000;
      NatTextLength(n, 20);
    }
  }

  /** Writes the digits from the back of a buffer of `3 * size + 1` characters.  The two
      asserts are the source's checks that the writer never reaches the buffer's front. */
  method IntToString(value: int, size: nat) returns (text: string)
    requires size == 4 || size == 8
    requires InRange(value, size)
    ensures text == IntText(value)
  {
    var outbuf := new char[3 * size + 1];
    var isNeg := value < 0;
    var res: nat := ToUnsigned(value, size);
    ToUnsignedIsMagnitude(value, size);
    ghost var n: nat := res;
    MagnitudeLength(n, size);
    var it := outbuf.Length;
    while true
      invariant 2 < it <= outbuf.Length
      invariant 0 < res || it == outbuf.Length
      invariant NatText(n) == NatText(res) + outbuf[it..]
      invariant |NatText(res)| + 2 < it
      decreases res, it
    {
      ghost var before := outbuf[it..];
      ghost var whole := NatText(res);
      it := it - 1;
      assert it != 0;
      outbuf[it] := DigitChar(res % 10);
      assert outbuf[it..] == [DigitChar(res % 10)] + before;
      res := res / 10;
      if res == 0 {
        assert whole == [outbuf[it]];
        assert outbuf[it..] == NatText(n);
        if isNeg {
          ghost var digits := outbuf[it..];
          it := it - 1;
          assert it != 0;
          outbuf[it] := '-';
          assert outbuf[it..] == "-" + digits;
        }
        return outbuf[it..];
      }
      assert NatText(res) + outbuf[it..] == whole + before;
    }
  }

  // ---------------------------------------------------------------------------------
  // Text to number
  // ---------------------------------------------------------------------------------

  /** White space of the "C" locale. */
  predicate IsSpace(c: char) {
    c == ' ' || '\t' as int <= c as int <= '\r' as int
  }

  /** Length of the longest prefix that consists of digits. */
  function DigitCount(s: string): (n: nat)
    ensures n <= |s| && AllDigits(s[..n])
    ensures n < |s| ==> !IsDigit(s[n])
  {
    if s == [] || !IsDigit(s[0]) then
      0
    else
      var m := DigitCount(s[1..]);
      assert s[1..][..m] == s[1..m + 1];
      assert forall i :: 0 < i < m + 1 ==> s[i] == s[1..m + 1][i - 1];
      m + 1
  }

  lemma {:induction false} AllDigitsCount(s: string)
    ensures AllDigits(s) <==> DigitCount(s) == |s|
  {
    if DigitCount(s) == |s| {
      assert s[..|s|] == s;
    }
  }

  /** The value of the leading digits of `s`. */
  function LeadingValue(s: string): int {
    DecimalValue(s[..DigitCount(s)])
  }

  lemma {:induction false} DecimalValueMonotone(s: string, i: nat, j: nat)
    requires AllDigits(s) && i <= j <= |s|
    ensures DecimalValue(s[..i]) <= DecimalValue(s[..j])
  {
    if i < j {
      DecimalValueMonotone(s, i, j - 1);
      assert s[..j][..j - 1] == s[..j - 1];
    }
  }

  /** The base-ten digit loop for non-negative numbers.  Whatever the input, the output is
      the value of the leading digits clamped to `max`; the result is true exactly for a
      non-empty digit string whose value fits. */
  method ParsePositive(s: string, max: int) returns (valid: bool, output: int)
    requires max >= 9
    ensures valid <==> s != [] && AllDigits(s) && DecimalValue(s) <= max
    ensures output == if LeadingValue(s) <= max then LeadingValue(s) else max
  {
    output := 0;
    AllDigitsCount(s);
    var n := |s|;
    ghost var lead := s[..DigitCount(s)];
    if n == 0 {
      return false, 0;
    }
    var current := 0;
    while current < n
      invariant 0 <= current <= DigitCount(s)
      invariant output == DecimalValue(s[..current])
      invariant 0 <= output <= max
    {
      if !IsDigit(s[current]) {
        return false, output;
      }
      var digit := DigitValue(s[current]);
      assert s[..current + 1][..current] == s[..current];
      assert lead[..current + 1] == s[..current + 1];
      if current != 0 {
        if output > max / 10 || (output == max / 10 && digit > max % 10) {
          DecimalValueMonotone(lead, current + 1, |lead|);
          assert lead[..|lead|] == lead;
          assert DigitCount(s) == n ==> lead == s;
          return false, max;
        }
        output := output * 10;
      } else {
        assert s[..0] == [];
      }
      output := output + digit;
      current := current + 1;
    }
    assert s[..n] == s;
    return true, output;
  }

  /** C++ division truncates toward zero, so the remainder of a negative dividend is not
      positive. */
  function TruncatedQuotient(a: int, b: int): int
    requires a <= 0 < b
  {
    -((-a) / b)
  }

  function TruncatedRemainder(a: int, b: int): int
    requires a <= 0 < b
  {
    a - TruncatedQuotient(a, b) * b
  }

  /** The digit loop for numbers after a minus sign; it counts downward. */
  method ParseNegative(s: string, min: int) returns (valid: bool, output: int)
    requires min <= -9
    ensures valid <==> s != [] && AllDigits(s) && min <= -DecimalValue(s)
    ensures output == if min <= -LeadingValue(s) then -LeadingValue(s) else min
  {
    output := 0;
    AllDigitsCount(s);
    var n := |s|;
    ghost var lead := s[..DigitCount(s)];
    if n == 0 {
      return false, 0;
    }
    var current := 0;
    while current < n
      invariant 0 <= current <= DigitCount(s)
      invariant output == -DecimalValue(s[..current])
      invariant min <= output <= 0
    {
      if !IsDigit(s[current]) {
        return false, output;
      }
      var digit := DigitValue(s[current]);
      assert s[..current + 1][..current] == s[..current];
      assert lead[..current + 1] == s[..current + 1];
      if current != 0 {
        if output < TruncatedQuotient(min, 10)
           || (output == TruncatedQuotient(min, 10) && digit > 0 - TruncatedRemainder(min, 10)) {
          DecimalValueMonotone(lead, current + 1, |lead|);
          assert lead[..|lead|] == lead;
          assert DigitCount(s) == n ==> lead == s;
          return false, min;
        }
        output := output * 10;
      } else {
        assert s[..0] == [];
      }
      output := output - digit;
      current := current + 1;
    }
    assert s[..n] == s;
    return true, output;
  }

  /** The texts a number parser accepts: an optional sign and at least one digit. */
  predicate IsSignedDigits(s: string) {
    var digits := if s != [] && (s[0] == '-' || s[0] == '+') then s[1..] else s;
    digits != [] && AllDigits(digits)
  }

  /** The integer such a text denotes. */
  function SignedValue(s: string): int
    requires IsSignedDigits(s)
  {
    if s[0] == '-' then -DecimalValue(s[1..])
    else if s[0] == '+' then DecimalValue(s[1..])
    else DecimalValue(s)
  }

  function SpaceCount(s: string): (n: nat)
    ensures n <= |s|
    ensures forall i :: 0 <= i < n ==> IsSpace(s[i])
    ensures n < |s| ==> !IsSpace(s[n])
  {
    if s == [] || !IsSpace(s[0]) then 0 else 1 + SpaceCount(s[1..])
  }

  /** Blanks and the characters 9 to 13 in front make no difference to the output. */
  lemma {:induction false} SpacesAreSkipped(spaces: string, s: string, min: int, max: int)
    requires min <= max && forall i :: 0 <= i < |spaces| ==> spaces[i] == ' ' || 9 <= spaces[i] as int <= 13
    ensures BestEffort(spaces + s, min, max) == BestEffort(s, min, max)
  {
    hide LeadingValue;
    if spaces == "" {
      assert spaces + s == s;
    } else {
      SpacesAreSkipped(spaces[1..], s, min, max);
      var t := spaces + s;
      assert t[1..] == spaces[1..] + s && t[0] == spaces[0];
      assert SpaceCount(t) == 1 + SpaceCount(t[1..]);
      assert t[SpaceCount(t)..] == t[1..][SpaceCount(t[1..])..];
    }
  }

  function Clamp(x: int, min: int, max: int): int
    requires min <= max
  {
    if x < min then min else if x > max then max else x
  }

  /** What the output parameter holds afterwards, for any text at all: white space is
      skipped, then the leading digits after the sign count, clamped to the type. */
  function BestEffort(s: string, min: int, max: int): int
    requires min <= max
  {
    var rest := s[SpaceCount(s)..];
    if rest != [] && rest[0] == '-' then Clamp(-LeadingValue(rest[1..]), min, max)
    else if rest != [] && rest[0] == '+' then Clamp(LeadingValue(rest[1..]), min, max)
    else Clamp(LeadingValue(rest), min, max)
  }

  /** The accepted texts and their values as one partial function. */
  function ParsedInt(s: string, size: nat): Option<int>
    requires size == 4 || size == 8
  {
    if IsSignedDigits(s) && InRange(SignedValue(s), size) then Some(SignedValue(s)) else None
  }

  /** `StringToInt` (size 4) and `StringToInt64` (size 8). */
  method StringToInt(input: string, size: nat) returns (valid: bool, output: int)
    requires size == 4 || size == 8
    ensures valid <==> ParsedInt(input, size).Some?
    ensures valid ==> output == ParsedInt(input, size).value
    ensures output == BestEffort(input, MinValue(size), MaxValue(size))
  {
    valid, output := ParseNumber(input, MinValue(size), MaxValue(size));
  }

  /** The conversion for any signed type, given by its bounds. */
  method ParseNumber(input: string, min: int, max: int) returns (valid: bool, output: int)
    requires min <= -9 && 9 <= max
    ensures valid <==> IsSignedDigits(input) && min <= SignedValue(input) <= max
    ensures valid ==> output == SignedValue(input)
    ensures output == BestEffort(input, min, max)
  {
    valid := true;
    var begin := 0;
    while begin < |input| && IsSpace(input[begin])
      invariant 0 <= begin <= |input|
      invariant forall i :: 0 <= i < begin ==> IsSpace(input[i])
      invariant valid <==> begin == 0
    {
      valid := false;
      begin := begin + 1;
    }
    var rest := input[begin..];
    SpacesEnd(input, begin);
    assert begin == 0 ==> rest == input;
    var ok;
    if rest != [] && rest[0] == '-' {
      ok, output := ParseNegative(rest[1..], min);
    } else {
      if rest != [] && rest[0] == '+' {
        ok, output := ParsePositive(rest[1..], max);
      } else {
        ok, output := ParsePositive(rest, max);
      }
    }
    ParsedDigits(rest);
    if !ok {
      valid := false;
    }
  }

  lemma {:induction false} SpacesEnd(s: string, n: nat)
    requires n <= |s| && forall i :: 0 <= i < n ==> IsSpace(s[i])
    requires n < |s| ==> !IsSpace(s[n])
    ensures SpaceCount(s) == n
    ensures n > 0 ==> !IsSignedDigits(s)
  {
    if n > 0 {
      SpacesEnd(s[1..], n - 1);
    }
  }

  lemma ParsedDigits(s: string)
    ensures AllDigits(s) ==> LeadingValue(s) == DecimalValue(s)
    ensures s != [] && AllDigits(s[1..]) ==> LeadingValue(s[1..]) == DecimalValue(s[1..])
  {
    if AllDigits(s) { LeadingIsAll(s); }
    if s != [] && AllDigits(s[1..]) { LeadingIsAll(s[1..]); }
  }

  lemma LeadingIsAll(s: string)
    requires AllDigits(s)
    ensures LeadingValue(s) == DecimalValue(s)
  {
    AllDigitsCount(s);
    assert s[..|s|] == s;
  }

  /** Printing and parsing are inverse on every value of the type, the minimum included. */
  lemma IntTextRoundTrip(value: int, size: nat)
    requires size == 4 || size == 8
    requires InRange(value, size)
    ensures ParsedInt(IntText(value), size) == Some(value)
  {
    if value < 0 {
      NatTextValue(-value);
      assert IntText(value)[1..] == NatText(-value);
    } else {
      NatTextValue(value);
    }
  }

  // ---------------------------------------------------------------------------------
  // Hexadecimal bytes
  // ---------------------------------------------------------------------------------

  predicate IsHexDigit(c: char) {
    '0' <= c <= '9' || 'A' <= c <= 'F' || 'a' <= c <= 'f'
  }

  function HexValue(c: char): (v: nat)
    requires IsHexDigit(c)
    ensures v < 16
  {
    if c <= '9' then c as int - '0' as int
    else if c <= 'F' then c as int - 'A' as int + 10
    else c as int - 'a' as int + 10
  }

  /** The upper-case digit table, as arithmetic. */
  function HexChar(v: nat): (c: char)
    requires v < 16
    ensures IsHexDigit(c) && HexValue(c) == v
  {
    if v < 10 then (v + '0' as int) as char else (v - 10 + 'A' as int) as char
  }

  /** The digit of a value below 16: `0` to `9`, then `A` to `F`. */
  predicate IsUpperHex(c: char, v: int) {
    if v < 10 then c as int == '0' as int + v else c as int == 'A' as int + (v - 10)
  }

  type byte = b: int | 0 <= b < 256

  /** Two upper-case digits a byte, high half first. */
  function HexText(bytes: seq<byte>): (s: string) {
    if bytes == [] then []
    else HexText(bytes[..|bytes| - 1]) +
         [HexChar(bytes[|bytes| - 1] / 16), HexChar(bytes[|bytes| - 1] % 16)]
  }

  lemma {:induction false} HexTextAt(bytes: seq<byte>, i: nat)
    requires i < |bytes|
    ensures |HexText(bytes)| == 2 * |bytes|
    ensures HexText(bytes)[2 * i] == HexChar(bytes[i] / 16)
    ensures HexText(bytes)[2 * i + 1] == HexChar(bytes[i] % 16)
  {
    var init := bytes[..|bytes| - 1];
    if init != [] {
      HexTextAt(init, if i < |init| then i else 0);
    }
  }

  method HexEncode(bytes: seq<byte>) returns (text: string)
    ensures text == HexText(bytes) && |text| == 2 * |bytes|
    ensures forall i :: 0 <= i < |bytes| ==> IsUpperHex(text[2 * i], bytes[i] / 16) && IsUpperHex(text[2 * i + 1], bytes[i] % 16)
  {
    var size := |bytes|;
    var ret := new char[size * 2];
    for i := 0 to size
      invariant forall k :: 0 <= k < i ==>
        ret[2 * k] == HexChar(bytes[k] / 16) && ret[2 * k + 1] == HexChar(bytes[k] % 16)
    {
      ret[i * 2] := HexChar(bytes[i] / 16);
      ret[i * 2 + 1] := HexChar(bytes[i] % 16);
    }
    text := ret[..];
    forall j | 0 <= j < |text| ensures |HexText(bytes)| == |text| && text[j] == HexText(bytes)[j] {
      HexTextAt(bytes, j / 2);
      assert j == 2 * (j / 2) || j == 2 * (j / 2) + 1;
    }
    assert size == 0 ==> HexText(bytes) == [];
    forall i | 0 <= i < |bytes|
      ensures 2 * i + 1 < |text| && IsUpperHex(text[2 * i], bytes[i] / 16) && IsUpperHex(text[2 * i + 1], bytes[i] % 16)
    {
      assert text[2 * i] == ret[2 * i] && text[2 * i + 1] == ret[2 * i + 1];
    }
  }

  /** The texts `HexStringToBytes` accepts: a positive even number of hex digits. */
  predicate IsHexBytes(s: string) {
    s != [] && |s| % 2 == 0 && forall i :: 0 <= i < |s| ==> IsHexDigit(s[i])
  }

  /** The byte at index `i` of the decoded text. */
  function DecodedByte(s: string, i: nat): byte
    requires IsHexBytes(s) && 2 * i + 1 < |s|
  {
    16 * HexValue(s[2 * i]) + HexValue(s[2 * i + 1])
  }

  method HexStringToBytes(input: string) returns (valid: bool, output: seq<byte>)
    ensures valid <==> IsHexBytes(input)
    ensures valid ==> 2 * |output| == |input|
    ensures valid ==> forall i :: 0 <= i < |output| ==> output[i] == DecodedByte(input, i)
  {
    output := [];
    var count := |input|;
    if count == 0 || count % 2 != 0 {
      return false, output;
    }
    for i := 0 to count / 2
      invariant |output| == i
      invariant forall k :: 0 <= k < 2 * i ==> IsHexDigit(input[k])
      invariant forall k :: 0 <= k < i ==>
        output[k] == 16 * HexValue(input[2 * k]) + HexValue(input[2 * k + 1])
    {
      if !IsHexDigit(input[2 * i]) || !IsHexDigit(input[2 * i + 1]) {
        return false, output;
      }
      output := output + [16 * HexValue(input[2 * i]) + HexValue(input[2 * i + 1])];
    }
    return true, output;
  }

  /** `HexStringToBytes` accepts the encoding of any non-empty byte string and gives back
      its bytes. */
  lemma HexRoundTrip(bytes: seq<byte>)
    requires bytes != []
    ensures IsHexBytes(HexText(bytes)) && |HexText(bytes)| == 2 * |bytes|
    ensures forall i :: 0 <= i < |bytes| ==> DecodedByte(HexText(bytes), i) == bytes[i]
  {
    var text := HexText(bytes);
    HexTextAt(bytes, 0);
    forall i | 0 <= i < |text| ensures IsHexDigit(text[i]) {
      HexTextAt(bytes, i / 2);
      if i % 2 == 0 {
        assert text[2 * (i / 2)] == text[i];
      } else {
        assert text[2 * (i / 2) + 1] == text[i];
      }
    }
    forall i | 0 <= i < |bytes| ensures DecodedByte(text, i) == bytes[i] {
      HexTextAt(bytes, i);
    }
  }
}
