/** Tables of the standards that the JSON text follows, written on code points: white space, digits
  * and escapes of RFC 8259 (sections 2, 6 and 7) and the byte sequences of RFC 3629 (section 4).
  * The grammar of JsonGrammar is built on them, and the reader is proved against them. */
module JsonStandard {
  /** ws = *( %x20 / %x09 / %x0A / %x0D ) */
  predicate IsWsChar(c: char) {
    c as int in {0x20, 0x09, 0x0A, 0x0D}
  }

  /** DIGIT = %x30-39 */
  predicate IsDigitChar(c: char) {
    0x30 <= c as int <= 0x39
  }

  /** unescaped = %x20-21 / %x23-5B / %x5D-10FFFF */
  predicate IsUnescaped(c: char) {
    0x20 <= c as int && c as int != 0x22 && c as int != 0x5C
  }

  /** The character behind a backslash, and the code point that the two stand for. */
  const ESCAPES: map<char, int> :=
    map['"' := 0x22, '\\' := 0x5C, '/' := 0x2F, 'b' := 0x08, 'f' := 0x0C, 'n' := 0x0A, 'r' := 0x0D, 't' := 0x09]

  const LOWER_DIGITS: string := "0123456789abcdef"
  const UPPER_DIGITS: string := "0123456789ABCDEF"

  predicate IsHexDigit(c: char, v: int) {
    0 <= v < 16 && (c == LOWER_DIGITS[v] || c == UPPER_DIGITS[v])
  }

  /** Four hexadecimal digits, each in either case, that spell n. */
  ghost predicate IsHex4(s: string, n: int) {
    |s| == 4 && exists a, b, c, d ::
      && IsHexDigit(s[0], a) && IsHexDigit(s[1], b) && IsHexDigit(s[2], c) && IsHexDigit(s[3], d)
      && n == a * 0x1000 + b * 0x100 + c * 0x10 + d
  }

  ghost predicate IsUnicodeEscape(text: string, n: int) {
    |text| == 6 && text[..2] == "\\u" && IsHex4(text[2..], n)
  }

  /** A byte between two bounds, both included. */
  predicate InBytes(c: char, low: int, high: int) {
    low <= c as int <= high
  }

  predicate IsTail(c: char) {
    InBytes(c, 0x80, 0xBF)
  }

  /** A well-formed sequence of UTF-8: UTF8-1, UTF8-2, UTF8-3 and UTF8-4. */
  predicate IsUtf8Sequence(b: string) {
    || (|b| == 1 && InBytes(b[0], 0, 0x7F))
    || (|b| == 2 && InBytes(b[0], 0xC2, 0xDF) && IsTail(b[1]))
    || (|b| == 3 && IsTail(b[2])
        && (|| (InBytes(b[0], 0xE0, 0xE0) && InBytes(b[1], 0xA0, 0xBF))
            || (InBytes(b[0], 0xE1, 0xEC) && IsTail(b[1]))
            || (InBytes(b[0], 0xED, 0xED) && InBytes(b[1], 0x80, 0x9F))
            || (InBytes(b[0], 0xEE, 0xEF) && IsTail(b[1]))))
    || (|b| == 4 && IsTail(b[2]) && IsTail(b[3])
        && (|| (InBytes(b[0], 0xF0, 0xF0) && InBytes(b[1], 0x90, 0xBF))
            || (InBytes(b[0], 0xF1, 0xF3) && IsTail(b[1]))
            || (InBytes(b[0], 0xF4, 0xF4) && InBytes(b[1], 0x80, 0x8F))))
  }

  /** The code point that a sequence encodes: its payload bits, most significant first. */
  function DecodeUtf8(b: string): int
    requires IsUtf8Sequence(b)
  {
    if |b| == 1 then b[0] as int
    else if |b| == 2 then (b[0] as int - 0xC0) * 0x40 + (b[1] as int - 0x80)
    else if |b| == 3 then ((b[0] as int - 0xE0) * 0x40 + (b[1] as int - 0x80)) * 0x40 + (b[2] as int - 0x80)
    else (((b[0] as int - 0xF0) * 0x40 + (b[1] as int - 0x80)) * 0x40 + (b[2] as int - 0x80)) * 0x40 + (b[3] as int - 0x80)
  }

  predicate IsUtf8Of(b: string, point: int) {
    IsUtf8Sequence(b) && DecodeUtf8(b) == point
  }
}
