/** The JSON parser of native/json.cpp as a function on texts, and the grammar of RFC 8259
  * (sections 2, 4, 5, 6 and 7) as syntax trees: the parser accepts exactly the texts of the
  * grammar that are not nested too deep and repeat no key, with the value that the tree denotes.
  *
  * Escapes have to denote Unicode scalar values: the parser refuses unpaired surrogates, which
  * the grammar of the standard leaves open. */
module JsonGrammar {
  import opened Wrappers
  import opened JsonNumbers
  import opened JsonStandard
  import opened JsonText

  // ---------------------------------------------------------------- the parser

  predicate IsSpace(c: char) {
    c in {' ', '\t', '\r', '\n'}
  }

  function SkipSpace(s: string): (r: string)
    ensures |r| <= |s|
  {
    if s != "" && IsSpace(s[0]) then SkipSpace(s[1..]) else s
  }

  predicate HasPrefix(s: string, p: string) {
    |p| <= |s| && s[..|p|] == p
  }

  function Literal(s: string, word: string, v: Value): Parsed<Value> {
    if HasPrefix(s, word) then Done(v, s[|word|..]) else Fail
  }

  function ParseNumber(s: string): (r: Parsed<Value>)
    ensures r.Done? ==> |r.rest| < |s|
  {
    if AfterNumber(s).None? then Fail
    else
      NumberSuffix(s);
      Done(Number(Front(s, AfterNumber(s).value)), AfterNumber(s).value)
  }

  function ParseValue(s: string, depth: nat): (r: Parsed<Value>)
    ensures r.Done? ==> |r.rest| < |s|
    decreases |s|, 1
  {
    var t := SkipSpace(s);
    if depth > MAX_DEPTH || t == "" then Fail
    else if t[0] == 'n' then Literal(t, "null", Null)
    else if t[0] == 't' then Literal(t, "true", Bool(true))
    else if t[0] == 'f' then Literal(t, "false", Bool(false))
    else if t[0] == QUOTE then
      var text := ParseString(t);
      if text.Fail? then Fail else Done(Str(text.value), text.rest)
    else if t[0] == '[' then
      var items := ParseArray(t[1..], depth);
      if items.Fail? then Fail else Done(Arr(items.value), items.rest)
    else if t[0] == '{' then
      var members := ParseObject(t[1..], depth);
      if members.Fail? then Fail else Done(Obj(members.value), members.rest)
    else if t[0] == '-' || IsDigit(t[0]) then ParseNumber(t)
    else Fail
  }

  /** Behind the opening bracket. */
  function ParseArray(s: string, depth: nat): (r: Parsed<seq<Value>>)
    ensures r.Done? ==> |r.rest| < |s|
    decreases |s|, 3
  {
    var t := SkipSpace(s);
    if StartsWith(t, ']') then Done([], t[1..]) else ParseElements(t, depth)
  }

  function ParseElements(s: string, depth: nat): (r: Parsed<seq<Value>>)
    ensures r.Done? ==> |r.rest| < |s|
    decreases |s|, 2
  {
    var first := ParseValue(s, depth + 1);
    if first.Fail? then Fail
    else
      var t := SkipSpace(first.rest);
      if StartsWith(t, ']') then Done([first.value], t[1..])
      else if !StartsWith(t, ',') then Fail
      else
        var more := ParseElements(SkipSpace(t[1..]), depth);
        if more.Fail? then Fail else Done([first.value] + more.value, more.rest)
  }

  /** Behind the opening brace. */
  function ParseObject(s: string, depth: nat): (r: Parsed<seq<Member>>)
    ensures r.Done? ==> |r.rest| < |s|
    decreases |s|, 4
  {
    var t := SkipSpace(s);
    if StartsWith(t, '}') then Done([], t[1..]) else ParseMembers(t, depth, [])
  }

  /** One member: key, colon, value. */
  function ParseMember(s: string, depth: nat): (r: Parsed<Member>)
    ensures r.Done? ==> |r.rest| < |s|
    decreases |s|, 2
  {
    var key := ParseString(s);
    if key.Fail? then Fail
    else
      var t := SkipSpace(key.rest);
      if !StartsWith(t, ':') then Fail
      else
        var v := ParseValue(SkipSpace(t[1..]), depth + 1);
        if v.Fail? then Fail else Done(Member(key.value, v.value), v.rest)
  }

  function ParseMembers(s: string, depth: nat, read: seq<Member>): (r: Parsed<seq<Member>>)
    ensures r.Done? ==> |r.rest| < |s|
    decreases |s|, 3
  {
    var m := ParseMember(s, depth);
    if m.Fail? || Emplace(read, m.value).None? then Fail
    else
      var now := Emplace(read, m.value).value;
      var t := SkipSpace(m.rest);
      if StartsWith(t, '}') then Done(now, t[1..])
      else if !StartsWith(t, ',') then Fail
      else ParseMembers(SkipSpace(t[1..]), depth, now)
  }

  function ParseDocument(s: string): Option<Value> {
    var v := ParseValue(SkipSpace(s), 0);
    if v.Fail? || SkipSpace(v.rest) != "" then None else Some(v.value)
  }

  // ---------------------------------------------------------------- the grammar

  predicate IsWs(s: string) {
    forall i :: 0 <= i < |s| ==> IsWsChar(s[i])
  }

  /** One character of a string as it is written, and the bytes that it stands for. */
  datatype Unit = Unit(text: string, bytes: string)

  predicate IsSurrogate(point: nat) {
    0xD800 <= point <= 0xDFFF
  }

  /** Section 7: an unescaped character, a two-character escape, a \u escape, or two for a surrogate pair. */
  ghost predicate IsUnit(u: Unit) {
    || (|u.text| == 1 && IsUnescaped(u.text[0]) && u.bytes == u.text)
    || (|u.text| == 2 && u.text[0] == '\\' && u.text[1] in ESCAPES && |u.bytes| == 1 && u.bytes[0] as int == ESCAPES[u.text[1]])
    || (exists point: nat :: IsUnicodeEscape(u.text, point) && !IsSurrogate(point) && IsUtf8Of(u.bytes, point))
    || (exists high: nat, low: nat :: IsPair(u, high, low))
  }

  /** RFC 8259, section 7: a character outside the basic multilingual plane as twelve characters. */
  ghost predicate IsPair(u: Unit, high: nat, low: nat) {
    && |u.text| == 12 && IsUnicodeEscape(u.text[..6], high) && IsUnicodeEscape(u.text[6..], low)
    && 0xD800 <= high <= 0xDBFF && 0xDC00 <= low <= 0xDFFF
    && IsUtf8Of(u.bytes, 0x10000 + (high - 0xD800) * 0x400 + (low - 0xDC00))
  }

  predicate IsHexEscape(text: string) {
    |text| == 6 && text[0] == BACKSLASH && text[1] == 'u' && Hex4(text[2..]).Some?
  }

  function HexEscape(text: string): nat
    requires IsHexEscape(text)
  {
    Hex4(text[2..]).value
  }

  /** The same, as the reader decides it. */
  predicate IsReadUnit(u: Unit) {
    || (|u.text| == 1 && u.text[0] >= ' ' && u.text[0] != QUOTE && u.text[0] != BACKSLASH && u.bytes == u.text)
    || (|u.text| == 2 && u.text[0] == BACKSLASH && SimpleEscape(u.text[1]).Some? && u.bytes == [SimpleEscape(u.text[1]).value])
    || (IsHexEscape(u.text) && !IsSurrogate(HexEscape(u.text)) && Utf8(HexEscape(u.text)) == Some(u.bytes))
    || (|u.text| == 12 && IsHexEscape(u.text[..6]) && IsHexEscape(u.text[6..])
        && var high, low := HexEscape(u.text[..6]), HexEscape(u.text[6..]);
           0xD800 <= high <= 0xDBFF && 0xDC00 <= low <= 0xDFFF
           && Utf8(0x10000 + (high - 0xD800) * 0x400 + (low - 0xDC00)) == Some(u.bytes))
  }

  lemma SpaceIsTabled()
    ensures forall c :: IsSpace(c) <==> IsWsChar(c)
  {}

  lemma HexEscapeIsTabled(text: string, n: nat)
    ensures (IsHexEscape(text) && HexEscape(text) == n) <==> IsUnicodeEscape(text, n)
  {
    if |text| == 6 {
      Hex4IsHex(text[2..], n);
      assert text[..2] == [text[0], text[1]];
    }
  }

  /** The units that the reader takes are those of the standard's tables. */
  lemma UnitIsTabled(u: Unit)
    ensures IsUnit(u) <==> IsReadUnit(u)
  {
    hide IsUnicodeEscape, IsHexEscape, HexEscape, Utf8, IsUtf8Of, SimpleEscape;
    if |u.text| == 2 {
      SimpleEscapeIsTabled(u.text[1]);
    }
    ShortEscapes(u);
    LongEscapes(u);
  }

  lemma ShortEscapes(u: Unit)
    ensures (exists point: nat :: IsUnicodeEscape(u.text, point) && !IsSurrogate(point) && IsUtf8Of(u.bytes, point))
            <==> IsHexEscape(u.text) && !IsSurrogate(HexEscape(u.text)) && Utf8(HexEscape(u.text)) == Some(u.bytes)
  {
    hide IsUnicodeEscape, IsHexEscape, HexEscape, Utf8, IsUtf8Of;
    if point: nat :| IsUnicodeEscape(u.text, point) && !IsSurrogate(point) && IsUtf8Of(u.bytes, point) {
      HexEscapeIsTabled(u.text, point);
      Utf8IsEncoding(point, u.bytes);
    }
    if IsHexEscape(u.text) {
      HexEscapeIsTabled(u.text, HexEscape(u.text));
      Utf8IsEncoding(HexEscape(u.text), u.bytes);
    }
  }

  lemma LongEscapes(u: Unit)
    ensures (exists high: nat, low: nat :: IsPair(u, high, low))
            <==> |u.text| == 12 && IsHexEscape(u.text[..6]) && IsHexEscape(u.text[6..])
                 && var high, low := HexEscape(u.text[..6]), HexEscape(u.text[6..]);
                    0xD800 <= high <= 0xDBFF && 0xDC00 <= low <= 0xDFFF
                    && Utf8(0x10000 + (high - 0xD800) * 0x400 + (low - 0xDC00)) == Some(u.bytes)
  {
    hide IsUnicodeEscape, IsHexEscape, HexEscape, Utf8, IsUtf8Of;
    if high: nat, low: nat :| IsPair(u, high, low) {
      HexEscapeIsTabled(u.text[..6], high);
      HexEscapeIsTabled(u.text[6..], low);
      Utf8IsEncoding(0x10000 + (high - 0xD800) * 0x400 + (low - 0xDC00), u.bytes);
    }
    if |u.text| == 12 && IsHexEscape(u.text[..6]) && IsHexEscape(u.text[6..]) {
      var high, low := HexEscape(u.text[..6]), HexEscape(u.text[6..]);
      HexEscapeIsTabled(u.text[..6], high);
      HexEscapeIsTabled(u.text[6..], low);
      if 0xD800 <= high <= 0xDBFF && 0xDC00 <= low <= 0xDFFF {
        Utf8IsEncoding(0x10000 + (high - 0xD800) * 0x400 + (low - 0xDC00), u.bytes);
        assert Utf8(0x10000 + (high - 0xD800) * 0x400 + (low - 0xDC00)) == Some(u.bytes) ==> IsPair(u, high, low);
      }
    }
  }

  datatype Tree =
    | NullTree
    | BoolTree(b: bool)
    | NumberTree(text: string)
    | StringTree(units: seq<Unit>)
    | ArrayTree(space: string, items: seq<Item>)
    | ObjectTree(space: string, fields: seq<Field>)

  /** White space is written around every value; an empty container may hold some too. */
  datatype Item = Item(before: string, tree: Tree, after: string)
  datatype Field = Field(before: string, key: seq<Unit>, beforeColon: string, afterColon: string, tree: Tree, after: string)

  ghost predicate AllUnits(units: seq<Unit>) {
    forall i :: 0 <= i < |units| ==> IsUnit(units[i])
  }

  ghost predicate Grammatical(t: Tree) {
    match t
    case NumberTree(text) => IsRfcNumber(text)
    case StringTree(units) => AllUnits(units)
    case ArrayTree(space, items) => IsWs(space) && forall i :: 0 <= i < |items| ==> GrammaticalItem(items[i])
    case ObjectTree(space, fields) => IsWs(space) && forall i :: 0 <= i < |fields| ==> GrammaticalField(fields[i])
    case _ => true
  }

  ghost predicate GrammaticalItem(item: Item) {
    IsWs(item.before) && Grammatical(item.tree) && IsWs(item.after)
  }

  ghost predicate GrammaticalField(field: Field) {
    && IsWs(field.before) && AllUnits(field.key) && IsWs(field.beforeColon) && IsWs(field.afterColon)
    && Grammatical(field.tree) && IsWs(field.after)
  }

  /** The text of the units in front of other text. */
  function UnitsOnto(units: seq<Unit>, rest: string): string {
    if units == [] then rest else units[0].text + UnitsOnto(units[1..], rest)
  }

  function StringOnto(units: seq<Unit>, rest: string): string {
    [QUOTE] + UnitsOnto(units, [QUOTE] + rest)
  }

  /** The text of a tree in front of other text. */
  function TreeOnto(t: Tree, rest: string): string
    decreases t, 0
  {
    match t
    case NullTree => "null" + rest
    case BoolTree(b) => (if b then "true" else "false") + rest
    case NumberTree(text) => text + rest
    case StringTree(units) => StringOnto(units, rest)
    case ArrayTree(space, items) => "[" + (if items == [] then space + ("]" + rest) else ItemsOnto(items, rest))
    case ObjectTree(space, fields) => "{" + (if fields == [] then space + ("}" + rest) else FieldsOnto(fields, rest))
  }

  function ItemsOnto(items: seq<Item>, rest: string): string
    requires items != []
    decreases items, 1
  {
    var tail := if |items| == 1 then "]" + rest else "," + ItemsOnto(items[1..], rest);
    items[0].before + TreeOnto(items[0].tree, items[0].after + tail)
  }

  function FieldsOnto(fields: seq<Field>, rest: string): string
    requires fields != []
    decreases fields, 2
  {
    fields[0].before + FieldOnto(fields[0], if |fields| == 1 then "}" + rest else "," + FieldsOnto(fields[1..], rest))
  }

  /** A field from its key on. */
  function FieldOnto(field: Field, tail: string): string
    decreases field, 1
  {
    StringOnto(field.key, field.beforeColon + (":" + (field.afterColon + TreeOnto(field.tree, field.after + tail))))
  }

  function Bytes(units: seq<Unit>): string {
    if units == [] then "" else units[0].bytes + Bytes(units[1..])
  }

  /** The value that a tree at this depth denotes; None if it is nested too deep or repeats a key. */
  function Outcome(t: Tree, depth: nat): Option<Value>
    decreases t, 0
  {
    if depth > 64 then None
    else
      match t
      case NullTree => Some(Null)
      case BoolTree(b) => Some(Bool(b))
      case NumberTree(text) => Some(Number(text))
      case StringTree(units) => Some(Str(Bytes(units)))
      case ArrayTree(_, items) =>
        var values := OutcomeItems(items, depth);
        if values.None? then None else Some(Arr(values.value))
      case ObjectTree(_, fields) =>
        var members := OutcomeFields([], fields, depth);
        if members.None? then None else Some(Obj(members.value))
  }

  function OutcomeItems(items: seq<Item>, depth: nat): Option<seq<Value>>
    decreases items, 1
  {
    if items == [] then Some([])
    else
      var first := Outcome(items[0].tree, depth + 1);
      var more := OutcomeItems(items[1..], depth);
      if first.None? || more.None? then None else Some([first.value] + more.value)
  }

  function OutcomeFields(read: seq<Member>, fields: seq<Field>, depth: nat): Option<seq<Member>>
    decreases fields, 1
  {
    if fields == [] then Some(read)
    else
      var v := Outcome(fields[0].tree, depth + 1);
      if v.None? then None
      else
        var now := Emplace(read, Member(Bytes(fields[0].key), v.value));
        if now.None? then None else OutcomeFields(now.value, fields[1..], depth)
  }

  function Read<T>(outcome: Option<T>, rest: string): Parsed<T> {
    if outcome.None? then Fail else Done(outcome.value, rest)
  }

  // ---------------------------------------------------------------- texts of the grammar are parsed

  lemma {:induction false} SkipWs(w: string, s: string)
    requires IsWs(w) && (s == "" || !IsSpace(s[0]))
    ensures SkipSpace(w + s) == s
    decreases |w|
  {
    SpaceIsTabled();
    hide IsSpace;
    if w == "" {
      assert w + s == s;
    } else {
      assert (w + s)[1..] == w[1..] + s && (w + s)[0] == w[0];
      SkipWs(w[1..], s);
    }
  }

  lemma UnitIsRead(u: Unit, rest: string)
    requires IsUnit(u)
    ensures u.text != "" && u.text[0] != QUOTE
    ensures StringUnit(u.text + rest) == Done(u.bytes, rest)
  {
    hide Hex4, Utf8, IsUnit;
    UnitIsTabled(u);
    var s := u.text + rest;
    if |u.text| == 1 {
      assert s[1..] == rest && u.text == [u.text[0]];
    } else if |u.text| == 2 {
      assert s[2..] == rest && SimpleEscape('u').None?;
    } else if |u.text| == 6 {
      HexIsRead(u.text[2..], rest);
      assert s[2..] == u.text[2..] + rest;
    } else {
      var high, low := u.text[2..6], u.text[8..12];
      var more := u.text[6..] + rest;
      assert u.text[..6][2..] == high && u.text[6..][2..] == low;
      HexIsRead(high, more);
      HexIsRead(low, rest);
      assert s[2..] == high + more;
      assert (high + more)[6..] == low + rest;
      assert (high + more)[10..] == rest;
    }
  }

  lemma HexIsRead(digits: string, rest: string)
    requires |digits| == 4
    ensures Hex4(digits + rest) == Hex4(digits) && (digits + rest)[4..] == rest
  {
    hide HexValue;
  }

  lemma {:induction false} StringIsRead(units: seq<Unit>, rest: string)
    requires AllUnits(units)
    ensures StringBody(UnitsOnto(units, [QUOTE] + rest)) == Done(Bytes(units), rest)
    decreases |units|
  {
    hide StringUnit, IsUnit;
    if units == [] {
      assert ([QUOTE] + rest)[1..] == rest;
    } else {
      var tail := UnitsOnto(units[1..], [QUOTE] + rest);
      assert IsUnit(units[0]);
      UnitIsRead(units[0], tail);
      StringIsRead(units[1..], rest);
    }
  }

  lemma TextIsRead(units: seq<Unit>, rest: string)
    requires AllUnits(units)
    ensures ParseString(StringOnto(units, rest)) == Done(Bytes(units), rest)
  {
    hide StringBody, UnitsOnto, AllUnits;
    StringIsRead(units, rest);
    var body := UnitsOnto(units, [QUOTE] + rest);
    assert ([QUOTE] + body)[1..] == body;
  }

  /** The first character of a tree tells its kind. */
  lemma TreeStart(t: Tree, rest: string)
    requires Grammatical(t)
    ensures var s := TreeOnto(t, rest);
            && s != "" && !IsSpace(s[0]) && s[0] !in {']', '}', ',', ':'}
            && (t.NullTree? <==> s[0] == 'n') && (t == BoolTree(true) <==> s[0] == 't') && (t == BoolTree(false) <==> s[0] == 'f')
            && (t.StringTree? <==> s[0] == QUOTE) && (t.ArrayTree? <==> s[0] == '[') && (t.ObjectTree? <==> s[0] == '{')
            && (t.NumberTree? <==> s[0] == '-' || IsDigit(s[0]))
  {
    hide UnitsOnto, ItemsOnto, FieldsOnto, IsRfcNumber;
    if t.NumberTree? {
      NumberStart(t.text);
      assert (t.text + rest)[0] == t.text[0];
    }
  }

  lemma NumberStart(text: string)
    requires IsRfcNumber(text)
    ensures text != "" && (text[0] == '-' || IsDigit(text[0]))
  {
    AcceptedIsRfc(text);
  }

  lemma NumberIsRead(text: string, rest: string)
    requires IsRfcNumber(text) && EndsNumber(rest)
    ensures ParseNumber(text + rest) == Done(Number(text), rest)
  {
    hide AfterNumber, IsRfcNumber;
    AcceptedIsRfc(text);
    NumberAppend(text, rest);
    assert "" + rest == rest;
    assert Front(text + rest, rest) == text;
  }

  lemma WordIsRead(word: string, v: Value, rest: string)
    ensures Literal(word + rest, word, v) == Done(v, rest)
  {}

  /** White space and punctuation cannot continue a number. */
  lemma WsEndsNumber(w: string, rest: string)
    requires IsWs(w) && EndsNumber(rest)
    ensures EndsNumber(w + rest)
  {
    if w == "" {
      assert w + rest == rest;
    }
  }

  /** Whatever is written by the grammar is read as what it denotes, up to where it ends. */
  lemma {:induction false} TreeIsRead(w: string, t: Tree, rest: string, depth: nat)
    requires IsWs(w) && Grammatical(t) && EndsNumber(rest)
    ensures ParseValue(w + TreeOnto(t, rest), depth) == Read(Outcome(t, depth), rest)
    decreases t, 1
  {
    hide ParseArray, ParseObject, ParseString, ParseNumber, Literal, IsRfcNumber, AllUnits, ItemsOnto, FieldsOnto,
         IsSpace;
    var s := TreeOnto(t, rest);
    TreeStart(t, rest);
    SkipWs(w, s);
    if depth <= MAX_DEPTH {
      match t {
        case NullTree => WordIsRead("null", Null, rest);
        case BoolTree(b) => WordIsRead(if b then "true" else "false", Bool(b), rest);
        case NumberTree(text) => NumberIsRead(text, rest);
        case StringTree(units) => TextIsRead(units, rest);
        case ArrayTree(space, items) =>
          ArrayIsRead(space, items, rest, depth);
          assert s[1..] == if items == [] then space + ("]" + rest) else ItemsOnto(items, rest);
        case ObjectTree(space, fields) =>
          ObjectIsRead(space, fields, rest, depth);
          assert s[1..] == if fields == [] then space + ("}" + rest) else FieldsOnto(fields, rest);
      }
    }
  }

  lemma ArrayIsRead(space: string, items: seq<Item>, rest: string, depth: nat)
    requires IsWs(space) && forall i :: 0 <= i < |items| ==> GrammaticalItem(items[i])
    ensures ParseArray(if items == [] then space + ("]" + rest) else ItemsOnto(items, rest), depth) == Read(OutcomeItems(items, depth), rest)
    decreases items, 3
  {
    hide ParseElements, GrammaticalItem, IsWs, IsSpace, ItemsOnto, OutcomeItems;
    if items == [] {
      Marks();
      Punctuation(space, "]", rest);
      NoItems(depth);
    } else {
      ElementsAreRead(items, rest, depth);
    }
  }

  lemma NoItems(depth: nat)
    ensures OutcomeItems([], depth) == Some([])
  {}

  lemma Punctuation(w: string, mark: string, rest: string)
    requires IsWs(w) && |mark| == 1 && !IsSpace(mark[0])
    ensures SkipSpace(w + (mark + rest)) == mark + rest && (mark + rest)[1..] == rest && (mark + rest)[0] == mark[0]
    ensures !IsDigit(mark[0]) && mark[0] !in {'.', 'e', 'E'} ==> EndsNumber(w + (mark + rest))
  {
    SkipWs(w, mark + rest);
    if !IsDigit(mark[0]) && mark[0] !in {'.', 'e', 'E'} {
      WsEndsNumber(w, mark + rest);
    }
  }

  lemma {:induction false} ElementsAreRead(items: seq<Item>, rest: string, depth: nat)
    requires items != [] && forall i :: 0 <= i < |items| ==> GrammaticalItem(items[i])
    ensures var s := SkipSpace(ItemsOnto(items, rest));
            && s != "" && s[0] !in {']', '}', ',', ':'}
            && ParseElements(s, depth) == Read(OutcomeItems(items, depth), rest)
    decreases items, 2
  {
    hide ParseValue, ParseElements, IsWs, IsSpace, TreeOnto, Grammatical, Outcome, OutcomeItems;
    var item := items[0];
    assert GrammaticalItem(item);
    var mark, more := if |items| == 1 then "]" else ",", if |items| == 1 then rest else ItemsOnto(items[1..], rest);
    var s := TreeOnto(item.tree, item.after + (mark + more));
    Marks();
    Punctuation(item.after, mark, more);
    TreeStart(item.tree, item.after + (mark + more));
    SkipWs(item.before, s);
    TreeIsRead("", item.tree, item.after + (mark + more), depth + 1);
    assert "" + s == s;
    OutcomeOfItems(items, depth);
    if |items| == 1 {
      LastElement(s, depth, Outcome(item.tree, depth + 1), item.after, rest);
    } else {
      NextElement(s, depth, Outcome(item.tree, depth + 1), item.after, more);
      ElementsAreRead(items[1..], rest, depth);
    }
  }

  lemma OutcomeOfItems(items: seq<Item>, depth: nat)
    requires items != []
    ensures var first, more := Outcome(items[0].tree, depth + 1), OutcomeItems(items[1..], depth);
            OutcomeItems(items, depth) == if first.None? || more.None? then None else Some([first.value] + more.value)
    ensures var first := Outcome(items[0].tree, depth + 1);
            |items| == 1 ==> OutcomeItems(items, depth) == if first.None? then None else Some([first.value])
  {
    hide Outcome;
    var first := Outcome(items[0].tree, depth + 1);
    if |items| == 1 && first.Some? {
      assert items[1..] == [] && [first.value] + [] == [first.value];
    }
  }

  /** The loop over elements behind an element that a bracket or a comma follows. */
  lemma LastElement(s: string, depth: nat, first: Option<Value>, after: string, rest: string)
    requires IsWs(after) && ParseValue(s, depth + 1) == Read(first, after + ("]" + rest))
    ensures ParseElements(s, depth) == if first.None? then Fail else Done([first.value], rest)
  {
    hide ParseValue, IsWs, IsSpace;
    Marks();
    Punctuation(after, "]", rest);
  }

  lemma NextElement(s: string, depth: nat, first: Option<Value>, after: string, more: string)
    requires IsWs(after) && ParseValue(s, depth + 1) == Read(first, after + ("," + more))
    ensures var next := ParseElements(SkipSpace(more), depth);
            ParseElements(s, depth) == if first.None? || next.Fail? then Fail else Done([first.value] + next.value, next.rest)
  {
    hide ParseValue, IsWs, IsSpace;
    Marks();
    Punctuation(after, ",", more);
  }

  lemma Marks()
    ensures !IsSpace(',') && !IsSpace(']') && !IsSpace('}') && !IsSpace(':')
    ensures IsWs("")
  {}

  lemma ObjectIsRead(space: string, fields: seq<Field>, rest: string, depth: nat)
    requires IsWs(space) && forall i :: 0 <= i < |fields| ==> GrammaticalField(fields[i])
    ensures ParseObject(if fields == [] then space + ("}" + rest) else FieldsOnto(fields, rest), depth) == Read(OutcomeFields([], fields, depth), rest)
    decreases fields, 4
  {
    hide ParseMembers, GrammaticalField, IsWs, IsSpace, FieldsOnto;
    if fields == [] {
      Marks();
      Punctuation(space, "}", rest);
    } else {
      FieldsAreRead([], fields, rest, depth);
    }
  }

  lemma FieldIsRead(field: Field, tail: string, depth: nat)
    requires GrammaticalField(field) && EndsNumber(field.after + tail)
    ensures var v := Outcome(field.tree, depth + 1);
            ParseMember(FieldOnto(field, tail), depth) ==
            if v.None? then Fail else Done(Member(Bytes(field.key), v.value), field.after + tail)
    decreases field, 2
  {
    hide ParseValue, ParseString, IsWs, IsSpace, TreeOnto, Grammatical, Outcome, AllUnits, StringOnto, Bytes;
    var body := TreeOnto(field.tree, field.after + tail);
    Marks();
    TextIsRead(field.key, field.beforeColon + (":" + (field.afterColon + body)));
    Punctuation(field.beforeColon, ":", field.afterColon + body);
    TreeStart(field.tree, field.after + tail);
    SkipWs(field.afterColon, body);
    TreeIsRead("", field.tree, field.after + tail, depth + 1);
    assert "" + body == body;
  }

  lemma {:induction false} FieldsAreRead(read: seq<Member>, fields: seq<Field>, rest: string, depth: nat)
    requires fields != [] && forall i :: 0 <= i < |fields| ==> GrammaticalField(fields[i])
    ensures var s := SkipSpace(FieldsOnto(fields, rest));
            && s != "" && s[0] == QUOTE
            && ParseMembers(s, depth, read) == Read(OutcomeFields(read, fields, depth), rest)
    decreases fields, 3
  {
    hide ParseMember, ParseMembers, IsWs, IsSpace, FieldOnto, FieldsOnto, Outcome, OutcomeFields, Emplace, Bytes,
         Grammatical, AllUnits;
    var field := fields[0];
    assert GrammaticalField(field);
    FieldsUnfold(read, fields, rest, depth);
    var mark, more := if |fields| == 1 then "}" else ",", if |fields| == 1 then rest else FieldsOnto(fields[1..], rest);
    var s := FieldOnto(field, mark + more);
    Marks();
    Punctuation(field.after, mark, more);
    FieldIsRead(field, mark + more, depth);
    FieldStart(field, mark + more);
    SkipWs(field.before, s);
    var v := Outcome(field.tree, depth + 1);
    if v.None? || Emplace(read, Member(Bytes(field.key), v.value)).None? {
      BadMember(s, depth, read);
    } else if |fields| == 1 {
      LastMember(s, depth, read, Member(Bytes(field.key), v.value), field.after, rest);
    } else {
      NextMember(s, depth, read, Member(Bytes(field.key), v.value), field.after, more);
      FieldsAreRead(Emplace(read, Member(Bytes(field.key), v.value)).value, fields[1..], rest, depth);
    }
  }

  lemma FieldsUnfold(read: seq<Member>, fields: seq<Field>, rest: string, depth: nat)
    requires fields != []
    ensures FieldsOnto(fields, rest) ==
            fields[0].before + FieldOnto(fields[0], if |fields| == 1 then "}" + rest else "," + FieldsOnto(fields[1..], rest))
    ensures var v := Outcome(fields[0].tree, depth + 1);
            var now := if v.None? then None else Emplace(read, Member(Bytes(fields[0].key), v.value));
            OutcomeFields(read, fields, depth) ==
            if now.None? then None else if |fields| == 1 then now else OutcomeFields(now.value, fields[1..], depth)
  {
    hide FieldOnto, Outcome, Emplace, Bytes;
    if |fields| == 1 {
      assert fields[1..] == [];
    }
  }

  lemma BadMember(s: string, depth: nat, read: seq<Member>)
    requires ParseMember(s, depth).Fail? || Emplace(read, ParseMember(s, depth).value).None?
    ensures ParseMembers(s, depth, read).Fail?
  {
    hide ParseMember, Emplace;
  }

  /** The loop over members behind a member that a brace or a comma follows. */
  lemma LastMember(s: string, depth: nat, read: seq<Member>, m: Member, after: string, rest: string)
    requires IsWs(after) && ParseMember(s, depth) == Done(m, after + ("}" + rest)) && Emplace(read, m).Some?
    ensures ParseMembers(s, depth, read) == Done(Emplace(read, m).value, rest)
  {
    hide ParseMember, Emplace, IsWs, IsSpace;
    Marks();
    Punctuation(after, "}", rest);
  }

  lemma NextMember(s: string, depth: nat, read: seq<Member>, m: Member, after: string, more: string)
    requires IsWs(after) && ParseMember(s, depth) == Done(m, after + ("," + more)) && Emplace(read, m).Some?
    ensures ParseMembers(s, depth, read) == ParseMembers(SkipSpace(more), depth, Emplace(read, m).value)
  {
    hide ParseMember, Emplace, IsWs, IsSpace;
    Marks();
    Punctuation(after, ",", more);
  }

  lemma FieldStart(field: Field, tail: string)
    ensures FieldOnto(field, tail) != "" && FieldOnto(field, tail)[0] == QUOTE && !IsSpace(QUOTE)
  {
    hide UnitsOnto, TreeOnto;
  }

  // ---------------------------------------------------------------- parsed texts are of the grammar

  /** The white space at the start of a text. */
  lemma {:induction false} LeadingWs(s: string) returns (w: string)
    ensures IsWs(w) && s == w + SkipSpace(s)
    decreases |s|
  {
    if s != "" && IsSpace(s[0]) {
      var more := LeadingWs(s[1..]);
      w := [s[0]] + more;
      assert s == [s[0]] + s[1..];
    } else {
      w := "";
    }
  }

  lemma UnitOfText(s: string) returns (u: Unit)
    requires s != "" && s[0] != QUOTE && StringUnit(s).Done?
    ensures IsUnit(u) && u.bytes == StringUnit(s).value && s == u.text + StringUnit(s).rest
  {
    hide Hex4, Utf8, IsUnit;
    var r := StringUnit(s);
    u := Unit(s[..|s| - |r.rest|], r.value);
    UnitIsTabled(u);
    if s[0] == BACKSLASH && s[1] == 'u' {
      var digits := s[2..];
      HexIsRead(digits[..4], digits[4..]);
      assert digits == digits[..4] + digits[4..];
      if |u.text| == 6 {
        assert u.text[2..] == digits[..4] && s == u.text + r.rest;
      } else {
        var low := digits[6..];
        HexIsRead(low[..4], low[4..]);
        assert low == low[..4] + low[4..];
        assert u.text[..6][2..] == digits[..4] && u.text[6..][2..] == low[..4];
        assert s == u.text + r.rest;
      }
    } else {
      assert s == u.text + r.rest;
    }
  }

  lemma {:induction false} UnitsOfBody(s: string) returns (units: seq<Unit>)
    requires StringBody(s).Done?
    ensures AllUnits(units) && Bytes(units) == StringBody(s).value
    ensures s == UnitsOnto(units, [QUOTE] + StringBody(s).rest)
    decreases |s|
  {
    hide StringUnit, IsUnit;
    if s[0] == QUOTE {
      units := [];
      assert s == [QUOTE] + s[1..];
    } else {
      var u := UnitOfText(s);
      var more := UnitsOfBody(StringUnit(s).rest);
      units := [u] + more;
      assert units[1..] == more;
    }
  }

  lemma UnitsOfString(s: string) returns (units: seq<Unit>)
    requires ParseString(s).Done?
    ensures AllUnits(units) && Bytes(units) == ParseString(s).value && s == StringOnto(units, ParseString(s).rest)
  {
    hide StringBody, UnitsOnto, Bytes, AllUnits;
    units := UnitsOfBody(s[1..]);
    assert s == [QUOTE] + s[1..];
  }

  lemma WordSplit(s: string, word: string, v: Value)
    requires Literal(s, word, v).Done?
    ensures Literal(s, word, v).value == v && s == word + Literal(s, word, v).rest
  {
    assert s == s[..|word|] + s[|word|..];
  }

  lemma NumberSplit(s: string)
    requires ParseNumber(s).Done?
    ensures ParseNumber(s).value.Number? && IsRfcNumber(ParseNumber(s).value.text)
    ensures s == ParseNumber(s).value.text + ParseNumber(s).rest
  {
    hide AfterNumber, IsRfcNumber;
    NumberSuffix(s);
    FrontAndSuffix(s, AfterNumber(s).value);
  }

  /** Whatever is parsed is white space and a text of the grammar that denotes the value. */
  lemma {:induction false} ParsedHasTree(s: string, depth: nat) returns (w: string, t: Tree)
    requires ParseValue(s, depth).Done?
    ensures IsWs(w) && Grammatical(t) && s == w + TreeOnto(t, ParseValue(s, depth).rest)
    ensures Outcome(t, depth) == Some(ParseValue(s, depth).value)
    decreases |s|, 1
  {
    hide ParseArray, ParseObject, ParseString, ParseNumber, Literal, IsRfcNumber, AllUnits, ItemsOnto, FieldsOnto,
         IsSpace, IsWs, StringOnto, OutcomeItems, OutcomeFields;
    w := LeadingWs(s);
    var text := SkipSpace(s);
    assert text == [text[0]] + text[1..];
    if text[0] == 'n' {
      WordSplit(text, "null", Null);
      t := NullTree;
    } else if text[0] == 't' {
      WordSplit(text, "true", Bool(true));
      t := BoolTree(true);
    } else if text[0] == 'f' {
      WordSplit(text, "false", Bool(false));
      t := BoolTree(false);
    } else if text[0] == QUOTE {
      var units := UnitsOfString(text);
      t := StringTree(units);
    } else if text[0] == '[' {
      t := ArrayHasTree(text[1..], depth);
    } else if text[0] == '{' {
      t := ObjectHasTree(text[1..], depth);
    } else {
      NumberSplit(text);
      t := NumberTree(ParseNumber(text).value.text);
    }
  }

  lemma ArrayHasTree(s: string, depth: nat) returns (t: Tree)
    requires ParseArray(s, depth).Done? && depth <= MAX_DEPTH
    ensures Grammatical(t) && "[" + s == TreeOnto(t, ParseArray(s, depth).rest)
    ensures Outcome(t, depth) == Some(Arr(ParseArray(s, depth).value))
    decreases |s|, 3
  {
    hide ParseElements, IsWs, IsSpace, ItemsOnto, OutcomeItems, GrammaticalItem;
    var w := LeadingWs(s);
    var text := SkipSpace(s);
    if StartsWith(text, ']') {
      t := ArrayTree(w, []);
      assert text == "]" + text[1..];
      NoItems(depth);
    } else {
      var items := ElementsHaveItems(text, depth);
      SpaceInFront(items, w, ParseElements(text, depth).rest, depth);
      t := ArrayTree("", Widened(items, w));
      Marks();
    }
  }

  function Widened(items: seq<Item>, w: string): seq<Item>
    requires items != []
  {
    items[0 := items[0].(before := w + items[0].before)]
  }

  lemma SpaceInFront(items: seq<Item>, w: string, rest: string, depth: nat)
    requires items != [] && IsWs(w) && forall i :: 0 <= i < |items| ==> GrammaticalItem(items[i])
    ensures var wide := Widened(items, w);
            && ItemsOnto(wide, rest) == w + ItemsOnto(items, rest)
            && (forall i :: 0 <= i < |wide| ==> GrammaticalItem(wide[i]))
            && OutcomeItems(wide, depth) == OutcomeItems(items, depth)
  {
    hide TreeOnto, Outcome, IsSpace, Grammatical;
    var wide := Widened(items, w);
    assert wide[1..] == items[1..];
    var tail := TreeOnto(items[0].tree, items[0].after + (if |items| == 1 then "]" + rest else "," + ItemsOnto(items[1..], rest)));
    assert (w + items[0].before) + tail == w + (items[0].before + tail);
    assert forall i :: 0 < i < |wide| ==> wide[i] == items[i];
  }

  lemma {:induction false} ElementsHaveItems(s: string, depth: nat) returns (items: seq<Item>)
    requires ParseElements(s, depth).Done?
    ensures items != [] && forall i :: 0 <= i < |items| ==> GrammaticalItem(items[i])
    ensures s == ItemsOnto(items, ParseElements(s, depth).rest)
    ensures OutcomeItems(items, depth) == Some(ParseElements(s, depth).value)
    decreases |s|, 2
  {
    hide ParseValue, IsWs, IsSpace, TreeOnto, Outcome, OutcomeItems, Grammatical;
    var first := ParseValue(s, depth + 1);
    var before, tree := ParsedHasTree(s, depth + 1);
    var after := LeadingWs(first.rest);
    var text := SkipSpace(first.rest);
    var item := Item(before, tree, after);
    assert text == [text[0]] + text[1..];
    if StartsWith(text, ']') {
      items := [item];
      OutcomeOfItems(items, depth);
    } else {
      var w := LeadingWs(text[1..]);
      var more := ElementsHaveItems(SkipSpace(text[1..]), depth);
      SpaceInFront(more, w, ParseElements(s, depth).rest, depth);
      items := [item] + Widened(more, w);
      assert items[1..] == Widened(more, w);
      OutcomeOfItems(items, depth);
    }
  }

  lemma ObjectHasTree(s: string, depth: nat) returns (t: Tree)
    requires ParseObject(s, depth).Done? && depth <= MAX_DEPTH
    ensures Grammatical(t) && "{" + s == TreeOnto(t, ParseObject(s, depth).rest)
    ensures Outcome(t, depth) == Some(Obj(ParseObject(s, depth).value))
    decreases |s|, 4
  {
    hide ParseMembers, IsWs, IsSpace, FieldsOnto, GrammaticalField;
    var w := LeadingWs(s);
    var text := SkipSpace(s);
    if StartsWith(text, '}') {
      t := ObjectTree(w, []);
      assert text == "}" + text[1..];
    } else {
      var fields := MembersHaveFields(w, text, depth, []);
      t := ObjectTree("", fields);
      Marks();
    }
  }

  /** A parsed member as a field, given the white space before it and how the rest is split. */
  lemma MemberHasField(before: string, s: string, depth: nat, after: string, tail: string) returns (field: Field)
    requires ParseMember(s, depth).Done? && IsWs(before) && IsWs(after) && ParseMember(s, depth).rest == after + tail
    ensures GrammaticalField(field) && field.before == before && field.after == after && s == FieldOnto(field, tail)
    ensures Outcome(field.tree, depth + 1) == Some(ParseMember(s, depth).value.value)
    ensures Bytes(field.key) == ParseMember(s, depth).value.key
    decreases |s|, 2
  {
    hide ParseValue, ParseString, IsWs, IsSpace, TreeOnto, Outcome, Grammatical, AllUnits, Bytes, StringOnto;
    var key := ParseString(s);
    var units := UnitsOfString(s);
    var beforeColon := LeadingWs(key.rest);
    var text := SkipSpace(key.rest);
    var w := LeadingWs(text[1..]);
    var more, tree := ParsedHasTree(SkipSpace(text[1..]), depth + 1);
    field := Field(before, units, beforeColon, w + more, tree, after);
    WsJoin(w, more);
    assert text == ":" + text[1..];
    assert text[1..] == (w + more) + TreeOnto(tree, after + tail);
    assert key.rest == beforeColon + (":" + ((w + more) + TreeOnto(tree, after + tail)));
  }

  lemma WsJoin(a: string, b: string)
    requires IsWs(a) && IsWs(b)
    ensures IsWs(a + b)
  {
    hide IsSpace;
  }

  lemma {:induction false} MembersHaveFields(before: string, s: string, depth: nat, read: seq<Member>) returns (fields: seq<Field>)
    requires ParseMembers(s, depth, read).Done? && IsWs(before)
    ensures fields != [] && forall i :: 0 <= i < |fields| ==> GrammaticalField(fields[i])
    ensures before + s == FieldsOnto(fields, ParseMembers(s, depth, read).rest)
    ensures OutcomeFields(read, fields, depth) == Some(ParseMembers(s, depth, read).value)
    decreases |s|, 3
  {
    hide ParseMember, ParseMembers, IsWs, IsSpace, FieldOnto, FieldsOnto, Outcome, OutcomeFields, Emplace, Bytes,
         Grammatical, AllUnits, GrammaticalField;
    MembersUnfold(s, depth, read);
    var m := ParseMember(s, depth);
    var now := Emplace(read, m.value).value;
    var after := LeadingWs(m.rest);
    var text := SkipSpace(m.rest);
    var field := MemberHasField(before, s, depth, after, text);
    assert text == [text[0]] + text[1..];
    if StartsWith(text, '}') {
      fields := [field];
    } else {
      var w := LeadingWs(text[1..]);
      var more := MembersHaveFields(w, SkipSpace(text[1..]), depth, now);
      fields := [field] + more;
      assert fields[1..] == more;
    }
    FieldsUnfold(read, fields, ParseMembers(s, depth, read).rest, depth);
  }

  /** One turn of the loop over members that succeeds in the end. */
  lemma MembersUnfold(s: string, depth: nat, read: seq<Member>)
    requires ParseMembers(s, depth, read).Done?
    ensures var m := ParseMember(s, depth);
            && m.Done? && |m.rest| < |s| && Emplace(read, m.value).Some?
            && var now, t := Emplace(read, m.value).value, SkipSpace(m.rest);
            && (StartsWith(t, '}') || StartsWith(t, ','))
            && ParseMembers(s, depth, read) ==
               (if StartsWith(t, '}') then Done(now, t[1..]) else ParseMembers(SkipSpace(t[1..]), depth, now))
  {
    hide ParseMember, Emplace, IsSpace;
  }

  /** The parser accepts exactly the texts of the grammar, white space around them allowed, that are
    * nested at most 64 deep and repeat no key, with the value that the text denotes. */
  lemma DocumentIsGrammar(s: string, v: Value)
    ensures ParseDocument(s) == Some(v) <==>
            exists w: string, t: Tree, after: string ::
              IsWs(w) && Grammatical(t) && IsWs(after) && s == w + TreeOnto(t, after) && Outcome(t, 0) == Some(v)
  {
    hide ParseValue, IsWs, IsSpace, TreeOnto, Outcome, Grammatical;
    if ParseDocument(s) == Some(v) {
      var lead := LeadingWs(s);
      var w, t := ParsedHasTree(SkipSpace(s), 0);
      var r := ParseValue(SkipSpace(s), 0);
      var after := LeadingWs(r.rest);
      assert r.rest == after by { assert after + "" == after; }
      WsJoin(lead, w);
      assert s == (lead + w) + TreeOnto(t, after);
    }
    if w: string, t: Tree, after: string :|
         IsWs(w) && Grammatical(t) && IsWs(after) && s == w + TreeOnto(t, after) && Outcome(t, 0) == Some(v) {
      DocumentIsRead(w, t, after);
    }
  }

  /** The parser's answer to any text of the grammar is what the text denotes, refusals included. */
  lemma DocumentIsRead(w: string, t: Tree, after: string)
    requires IsWs(w) && Grammatical(t) && IsWs(after)
    ensures ParseDocument(w + TreeOnto(t, after)) == Outcome(t, 0)
  {
    hide ParseValue, IsSpace, TreeOnto, Outcome, Grammatical;
    var s := TreeOnto(t, after);
    TreeStart(t, after);
    SkipWs(w, s);
    Marks();
    assert after + "" == after;
    SkipWs(after, "");
    WsEndsNumber(after, "");
    TreeIsRead("", t, after, 0);
    assert "" + s == s;
  }
}
