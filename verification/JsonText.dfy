/** JSON values, printing and parsing of native/json.cpp.
  *
  * One char stands for one byte of a std::string.  Parsing is specified here on the text that
  * is still to be read; JsonParser holds the position-based parser and proves it against this. */
module JsonText {
  import opened MachineInts
  import opened Wrappers
  import opened JsonNumbers
  import opened JsonStandard

  /** Objects are kept as std::map keeps them: members in ascending key order. */
  datatype Value =
    | Null
    | Bool(b: bool)
    | Number(text: string)
    | Str(s: string)
    | Arr(items: seq<Value>)
    | Obj(members: seq<Member>)

  datatype Member = Member(key: string, value: Value)

  /** Result of reading something at the start of a text: what was read and what remains. */
  datatype Parsed<+T> = Fail | Done(value: T, rest: string)

  const MAX_DEPTH: nat := 64
  const NUL: char := '\0'
  const QUOTE: char := '"'
  const BACKSLASH: char := '\\'

  // ---------------------------------------------------------------- strings

  function HexValue(c: char): (r: Option<nat>)
    ensures r.Some? ==> r.value < 16
  {
    if '0' <= c <= '9' then Some((c - '0') as nat)
    else if 'a' <= c <= 'f' then Some((c - 'a') as nat + 10)
    else if 'A' <= c <= 'F' then Some((c - 'A') as nat + 10)
    else None
  }

  function Hex4(s: string): (r: Option<nat>)
    ensures r.Some? ==> |s| >= 4 && r.value <= 0xFFFF
  {
    if |s| < 4 || HexValue(s[0]).None? || HexValue(s[1]).None? || HexValue(s[2]).None? || HexValue(s[3]).None? then None
    else Some(((HexValue(s[0]).value * 16 + HexValue(s[1]).value) * 16 + HexValue(s[2]).value) * 16 + HexValue(s[3]).value)
  }

  /** UTF-8 bytes of a code point; None for surrogates and beyond the last code point. */
  function Utf8(point: nat): Option<string> {
    if point < 0x80 then Some([point as char])
    else if point < 0x800 then Some([(0xC0 + point / 0x40) as char, (0x80 + point % 0x40) as char])
    else if 0xD800 <= point <= 0xDFFF then None
    else if point < 0x10000 then
      Some([(0xE0 + point / 0x1000) as char, (0x80 + point / 0x40 % 0x40) as char, (0x80 + point % 0x40) as char])
    else if point <= 0x10FFFF then
      Some([(0xF0 + point / 0x40000) as char, (0x80 + point / 0x1000 % 0x40) as char,
            (0x80 + point / 0x40 % 0x40) as char, (0x80 + point % 0x40) as char])
    else None
  }

  function SimpleEscape(c: char): Option<char> {
    if c == QUOTE || c == BACKSLASH || c == '/' then Some(c)
    else if c == 'b' then Some(8 as char)
    else if c == 'f' then Some(12 as char)
    else if c == 'n' then Some('\n')
    else if c == 'r' then Some('\r')
    else if c == 't' then Some('\t')
    else None
  }

  /** A \u escape behind its first two characters: one code point, or a surrogate pair. */
  function UnicodeEscape(s: string): (r: Parsed<nat>)
    ensures r.Done? ==> |r.rest| < |s|
  {
    var high := Hex4(s);
    if high.None? then Fail
    else if 0xD800 <= high.value <= 0xDBFF then
      var low := if |s| >= 6 && s[4] == BACKSLASH && s[5] == 'u' then Hex4(s[6..]) else None;
      if low.None? || low.value < 0xDC00 || low.value > 0xDFFF then Fail
      else Done(0x10000 + (high.value - 0xD800) * 0x400 + (low.value - 0xDC00), s[10..])
    else if 0xDC00 <= high.value <= 0xDFFF then Fail
    else Done(high.value, s[4..])
  }

  /** The parser never asks for the bytes of a surrogate or of a point out of range. */
  lemma UnicodeEscapeEncodes(s: string)
    requires UnicodeEscape(s).Done?
    ensures Utf8(UnicodeEscape(s).value).Some?
  {}

  // ---------------------------------------------------------------- the reader's tables against the standards

  /** The two-character escapes of the reader are those of the standard, with the same meaning. */
  lemma SimpleEscapeIsTabled(c: char)
    ensures SimpleEscape(c).Some? <==> c in ESCAPES
    ensures SimpleEscape(c).Some? ==> SimpleEscape(c).value as int == ESCAPES[c]
  {}

  lemma HexValueIsDigit(c: char, v: int)
    ensures (HexValue(c).Some? && HexValue(c).value == v) <==> IsHexDigit(c, v)
  {
  }

  /** Four digits are read as n exactly if they spell n. */
  lemma Hex4IsHex(s: string, n: int)
    requires |s| == 4
    ensures (Hex4(s).Some? && Hex4(s).value == n) <==> IsHex4(s, n)
  {
    hide HexValue, IsHexDigit;
    if IsHex4(s, n) {
      var a, b, c, d :| IsHexDigit(s[0], a) && IsHexDigit(s[1], b) && IsHexDigit(s[2], c) && IsHexDigit(s[3], d)
                        && n == a * 0x1000 + b * 0x100 + c * 0x10 + d;
      HexValueIsDigit(s[0], a);
      HexValueIsDigit(s[1], b);
      HexValueIsDigit(s[2], c);
      HexValueIsDigit(s[3], d);
    }
    if Hex4(s).Some? && Hex4(s).value == n {
      HexValueIsDigit(s[0], HexValue(s[0]).value);
      HexValueIsDigit(s[1], HexValue(s[1]).value);
      HexValueIsDigit(s[2], HexValue(s[2]).value);
      HexValueIsDigit(s[3], HexValue(s[3]).value);
    }
  }

  /** The encoder gives a sequence exactly if it is the UTF-8 of the point. */
  lemma Utf8IsEncoding(point: nat, b: string)
    ensures Utf8(point) == Some(b) <==> IsUtf8Of(b, point)
  {
    if Utf8(point).Some? {
      EncodedDecodes(point);
    }
    if IsUtf8Of(b, point) {
      DecodedEncodes(b);
    }
  }

  /** Four payloads of six bits each are the digits of their number to the base 64. */
  lemma Payloads(a: nat, b: nat, c: nat, d: nat)
    requires b < 0x40 && c < 0x40 && d < 0x40
    ensures var p := ((a * 0x40 + b) * 0x40 + c) * 0x40 + d;
            && p / 0x40000 == a
            && p / 0x1000 == a * 0x40 + b && p / 0x1000 % 0x40 == b
            && p / 0x40 == (a * 0x40 + b) * 0x40 + c && p / 0x40 % 0x40 == c
            && p % 0x40 == d
  {
    var p := ((a * 0x40 + b) * 0x40 + c) * 0x40 + d;
    DivModUnique(p, 0x40, (a * 0x40 + b) * 0x40 + c, d);
    DivModUnique((a * 0x40 + b) * 0x40 + c, 0x40, a * 0x40 + b, c);
    DivModUnique(a * 0x40 + b, 0x40, a, b);
    DivModUnique(p, 0x1000, a * 0x40 + b, c * 0x40 + d);
    DivModUnique(p, 0x40000, a, (b * 0x40 + c) * 0x40 + d);
  }

  /** The base-64 digits of a number. */
  lemma SixBits(p: nat)
    ensures p == p / 0x40 * 0x40 + p % 0x40
    ensures p / 0x40 == p / 0x1000 * 0x40 + p / 0x40 % 0x40
    ensures p / 0x1000 == p / 0x40000 * 0x40 + p / 0x1000 % 0x40
  {
    var q := p / 0x40;
    var r := q / 0x40;
    DivModUnique(p, 0x1000, r, q % 0x40 * 0x40 + p % 0x40);
    DivModUnique(p, 0x40000, r / 0x40, (r % 0x40 * 0x40 + q % 0x40) * 0x40 + p % 0x40);
  }

  lemma EncodedDecodes(point: nat)
    requires Utf8(point).Some?
    ensures IsUtf8Of(Utf8(point).value, point)
  {
    SixBits(point);
  }

  lemma DecodedEncodes(b: string)
    requires IsUtf8Sequence(b)
    ensures DecodeUtf8(b) >= 0 && Utf8(DecodeUtf8(b)) == Some(b)
  {
    if |b| == 1 {
      assert b == [b[0]];
    } else if |b| == 2 {
      Payloads(0, 0, b[0] as int - 0xC0, b[1] as int - 0x80);
      assert b == [b[0], b[1]];
    } else if |b| == 3 {
      Payloads(0, b[0] as int - 0xE0, b[1] as int - 0x80, b[2] as int - 0x80);
      assert b == [b[0], b[1], b[2]];
    } else {
      Payloads(b[0] as int - 0xF0, b[1] as int - 0x80, b[2] as int - 0x80, b[3] as int - 0x80);
      assert b == [b[0], b[1], b[2], b[3]];
    }
  }

  /** One unit of a string body: a plain byte or an escape, decoded. */
  function StringUnit(s: string): (r: Parsed<string>)
    ensures r.Done? ==> |r.rest| < |s|
  {
    if s == "" || s[0] < ' ' then Fail
    else if s[0] != BACKSLASH then Done([s[0]], s[1..])
    else if |s| < 2 then Fail
    else if s[1] == 'u' then
      var point := UnicodeEscape(s[2..]);
      if point.Fail? || Utf8(point.value).None? then Fail else Done(Utf8(point.value).value, point.rest)
    else if SimpleEscape(s[1]).Some? then Done([SimpleEscape(s[1]).value], s[2..])
    else Fail
  }

  /** A two-character escape is read as the \u escape of the code point in the table is. */
  lemma EscapeReadsAsUnicode(c: char, digits: string, rest: string)
    requires c in ESCAPES && IsHex4(digits, ESCAPES[c])
    ensures StringUnit("\\" + [c] + rest) == StringUnit("\\u" + digits + rest)
    ensures StringUnit("\\" + [c] + rest) == Done([ESCAPES[c] as char], rest)
  {
    hide Hex4, IsHexDigit;
    SimpleEscapeIsTabled(c);
    Hex4IsHex(digits, ESCAPES[c]);
    var short, long := "\\" + [c] + rest, "\\u" + digits + rest;
    assert short[2..] == rest && long[2..] == digits + rest;
    Hex4Ahead(digits, rest);
  }

  lemma Hex4Ahead(digits: string, rest: string)
    requires |digits| == 4
    ensures Hex4(digits + rest) == Hex4(digits) && (digits + rest)[4..] == rest
  {
    hide HexValue;
  }

  /** The rest of a string after its opening quote. */
  function StringBody(s: string): (r: Parsed<string>)
    ensures r.Done? ==> |r.rest| < |s|
    decreases |s|
  {
    if s == "" then Fail
    else if s[0] == QUOTE then Done("", s[1..])
    else
      var first := StringUnit(s);
      if first.Fail? then Fail
      else
        var more := StringBody(first.rest);
        if more.Fail? then Fail else Done(first.value + more.value, more.rest)
  }

  function ParseString(s: string): (r: Parsed<string>)
    ensures r.Done? ==> |r.rest| < |s|
  {
    if StartsWith(s, QUOTE) then StringBody(s[1..]) else Fail
  }

  /** How section 7 of RFC 8259 lets an escaper write one byte. */
  ghost predicate IsEscapeOf(e: string, c: char) {
    || (e == [c] && IsUnescaped(c))
    || (|e| == 2 && e[0] == '\\' && e[1] in ESCAPES && ESCAPES[e[1]] == c as int)
    || (c as int < 0x80 && IsUnicodeEscape(e, c as int))
  }

  /** The contract of the string escaper: every byte but NUL is written as one of its escapes. */
  ghost predicate EscaperContract(escape: char -> string) {
    forall c: char :: c != NUL ==> IsEscapeOf(escape(c), c)
  }

  function EscapeAll(s: string, escape: char -> string): string {
    if s == "" then "" else escape(s[0]) + EscapeAll(s[1..], escape)
  }

  /** The escaper is handed a C string: it stops at the first NUL. */
  function CString(s: string): string {
    if s == "" || s[0] == NUL then "" else [s[0]] + CString(s[1..])
  }

  function Quoted(s: string, escape: char -> string): string {
    [QUOTE] + EscapeAll(CString(s), escape) + [QUOTE]
  }

  predicate NulFree(s: string) {
    forall i :: 0 <= i < |s| ==> s[i] != NUL
  }

  lemma {:induction false} CStringIsNulFree(s: string)
    ensures NulFree(CString(s))
    ensures CString(s) == s <==> NulFree(s)
  {
    if s != "" && s[0] != NUL {
      CStringIsNulFree(s[1..]);
      assert s == [s[0]] + s[1..];
      assert NulFree(s) <==> NulFree(s[1..]);
    }
  }

  // ---------------------------------------------------------------- printing

  function Dump(v: Value, escape: char -> string): string
    decreases v, 0
  {
    match v
    case Null => "null"
    case Bool(b) => if b then "true" else "false"
    case Number(text) => text
    case Str(s) => Quoted(s, escape)
    case Arr(items) => "[" + DumpItems(items, escape) + "]"
    case Obj(members) => "{" + DumpMembers(members, escape) + "}"
  }

  function DumpItems(items: seq<Value>, escape: char -> string): string
    decreases items, 1
  {
    if items == [] then ""
    else if |items| == 1 then Dump(items[0], escape)
    else Dump(items[0], escape) + "," + DumpItems(items[1..], escape)
  }

  function DumpMember(m: Member, escape: char -> string): string
    decreases m, 1
  {
    Quoted(m.key, escape) + ":" + Dump(m.value, escape)
  }

  function DumpMembers(members: seq<Member>, escape: char -> string): string
    decreases members, 2
  {
    if members == [] then ""
    else if |members| == 1 then DumpMember(members[0], escape)
    else DumpMember(members[0], escape) + "," + DumpMembers(members[1..], escape)
  }

  // ---------------------------------------------------------------- objects as sorted maps

  /** std::less on std::string: lexicographic by byte. */
  predicate Less(a: string, b: string) {
    b != "" && (a == "" || a[0] < b[0] || (a[0] == b[0] && Less(a[1..], b[1..])))
  }

  /** That order is the lexicographic one: the first difference decides, and a prefix comes first. */
  lemma {:induction false} LessIsLexicographic(a: string, b: string)
    ensures Less(a, b) <==> exists k :: FirstDifference(a, b, k) && (if k == |a| then k < |b| else k < |b| && a[k] < b[k])
  {
    if a != "" && b != "" && a[0] == b[0] {
      LessIsLexicographic(a[1..], b[1..]);
      if k :| FirstDifference(a, b, k) && (if k == |a| then k < |b| else k < |b| && a[k] < b[k]) {
        assert k > 0 && FirstDifference(a[1..], b[1..], k - 1);
      }
      if k :| FirstDifference(a[1..], b[1..], k) && (if k == |a[1..]| then k < |b[1..]| else k < |b[1..]| && a[1..][k] < b[1..][k]) {
        assert FirstDifference(a, b, k + 1);
      }
    } else {
      assert FirstDifference(a, b, 0);
    }
  }

  /** The strings agree before k, and k is the end of one of them or a difference. */
  predicate FirstDifference(a: string, b: string, k: int) {
    && 0 <= k <= |a| && k <= |b| && a[..k] == b[..k]
    && (k == |a| || k == |b| || a[k] != b[k])
  }

  ghost predicate SortedKeys(members: seq<Member>) {
    forall i, j :: 0 <= i < j < |members| ==> Less(members[i].key, members[j].key)
  }

  lemma {:induction false} LessTrans(a: string, b: string, c: string)
    requires Less(a, b) && Less(b, c)
    ensures Less(a, c)
  {
    if a != "" && a[0] == b[0] && b[0] == c[0] {
      LessTrans(a[1..], b[1..], c[1..]);
    }
  }

  lemma {:induction false} LessTotal(a: string, b: string)
    ensures !Less(a, a)
    ensures Less(a, b) || a == b || Less(b, a)
    ensures !(Less(a, b) && Less(b, a))
  {
    if a != "" {
      LessTotal(a[1..], if b == "" then "" else b[1..]);
      if b != "" && a[0] == b[0] && a[1..] == b[1..] {
        assert a == [a[0]] + a[1..] && b == [b[0]] + b[1..];
      }
    }
  }

  /** std::map::emplace; None if the key is already there. */
  function Emplace(members: seq<Member>, m: Member): Option<seq<Member>> {
    if members == [] then Some([m])
    else if members[0].key == m.key then None
    else if Less(m.key, members[0].key) then Some([m] + members)
    else
      var rest := Emplace(members[1..], m);
      if rest.None? then None else Some([members[0]] + rest.value)
  }

  ghost predicate HasKey(members: seq<Member>, key: string) {
    exists i :: 0 <= i < |members| && members[i].key == key
  }

  lemma SortedPrepend(head: Member, tail: seq<Member>)
    requires SortedKeys(tail) && forall m :: m in tail ==> Less(head.key, m.key)
    ensures SortedKeys([head] + tail)
  {}

  lemma HasKeyPrepend(head: Member, tail: seq<Member>, key: string)
    ensures HasKey([head] + tail, key) <==> head.key == key || HasKey(tail, key)
  {
    var members := [head] + tail;
    if HasKey(tail, key) {
      var i :| 0 <= i < |tail| && tail[i].key == key;
      assert members[i + 1].key == key;
    }
    if head.key == key {
      assert members[0].key == key;
    }
  }

  /** A key below the first one is in front of all. */
  lemma BelowFirst(members: seq<Member>, key: string)
    requires SortedKeys(members) && members != [] && Less(key, members[0].key)
    ensures forall m :: m in members ==> Less(key, m.key)
    ensures !HasKey(members, key)
  {
    forall i | 0 <= i < |members|
      ensures Less(key, members[i].key) && members[i].key != key
    {
      if i > 0 {
        LessTrans(key, members[0].key, members[i].key);
      }
      LessTotal(key, members[i].key);
    }
  }

  /** Inserting keeps the order and adds exactly the new member; it fails exactly on a duplicate. */
  lemma {:induction false} EmplaceExact(members: seq<Member>, m: Member)
    requires SortedKeys(members)
    ensures Emplace(members, m).None? <==> HasKey(members, m.key)
    ensures Emplace(members, m).Some? ==>
              && SortedKeys(Emplace(members, m).value)
              && forall x :: x in Emplace(members, m).value <==> x in members || x == m
    decreases |members|
  {
    hide SortedKeys, HasKey, Less;
    if members == [] {
      OneMember(m);
    } else {
      var head, tail := members[0], members[1..];
      assert members == [head] + tail;
      SortedParts(members);
      LessTotal(head.key, m.key);
      HasKeyPrepend(head, tail, m.key);
      if head.key != m.key {
        if Less(m.key, head.key) {
          BelowFirst(members, m.key);
          SortedPrepend(m, members);
        } else {
          EmplaceExact(tail, m);
          var rest := Emplace(tail, m);
          if rest.Some? {
            SortedPrepend(head, rest.value);
          }
        }
      }
    }
  }

  lemma OneMember(m: Member)
    ensures SortedKeys([m]) && !HasKey([], m.key)
  {}

  lemma SortedParts(members: seq<Member>)
    requires SortedKeys(members) && members != []
    ensures SortedKeys(members[1..])
    ensures forall m :: m in members[1..] ==> Less(members[0].key, m.key)
  {}

  lemma {:induction false} EmplaceLast(members: seq<Member>, m: Member)
    requires forall i :: 0 <= i < |members| ==> Less(members[i].key, m.key)
    ensures Emplace(members, m) == Some(members + [m])
    decreases |members|
  {
    if members == [] {
      assert members + [m] == [m];
    } else {
      LessTotal(members[0].key, m.key);
      EmplaceLast(members[1..], m);
      assert [members[0]] + (members[1..] + [m]) == members + [m];
    }
  }
}
