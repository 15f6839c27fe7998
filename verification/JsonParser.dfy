/** The position-based parser and the loops of native/json.cpp, proved against the functions on
  * the text that is still to be read.  None stands for an exception. */
module JsonParser {
  import opened Wrappers
  import opened JsonNumbers
  import opened JsonText
  import opened JsonGrammar

  /** The method result r and the text left over agree with the specified result p. */
  predicate Agrees<T(==)>(r: Option<T>, after: string, p: Parsed<T>) {
    if p.Fail? then r.None? else r == Some(p.value) && after == p.rest
  }

  function Cut(text: string, position: nat): string
    requires position <= |text|
  {
    text[position..]
  }

  lemma CutStep(text: string, position: nat)
    requires position < |text|
    ensures Cut(text, position) != "" && Cut(text, position)[0] == text[position]
    ensures Cut(text, position)[1..] == Cut(text, position + 1)
  {}

  lemma CutEnds(text: string)
    ensures Cut(text, 0) == text && Cut(text, |text|) == ""
  {}

  /** Text between two positions. */
  lemma CutFront(text: string, start: nat, end: nat)
    requires start <= end <= |text|
    ensures Front(Cut(text, start), Cut(text, end)) == text[start..end]
  {}

  // ---------------------------------------------------------------- Json::number

  /** The digit loops, in the number check and in the parser. */
  method SkipDigits(text: string, start: nat) returns (position: nat)
    requires start <= |text|
    ensures start <= position <= |text| && Cut(text, position) == AfterDigits(Cut(text, start))
    ensures start == position <==> !StartsDigit(Cut(text, start))
  {
    hide Cut;
    position := start;
    CutEnds(text);
    while position < |text| && IsDigit(text[position])
      invariant start <= position <= |text|
      invariant AfterDigits(Cut(text, start)) == AfterDigits(Cut(text, position))
      invariant position > start ==> StartsDigit(Cut(text, start))
    {
      CutStep(text, position);
      position := position + 1;
    }
    if position < |text| {
      CutStep(text, position);
    }
  }

  /** Agreement of an end position with a suffix function; None where the scan stops with an error. */
  predicate EndsAs(text: string, end: Option<nat>, rest: Option<string>) {
    if rest.None? then end.None? else end.Some? && end.value <= |text| && Cut(text, end.value) == rest.value
  }

  /** The optional sign and the integer part. */
  method ScanInteger(text: string, start: nat) returns (end: Option<nat>)
    requires start <= |text|
    ensures EndsAs(text, end, AfterInt(AfterMinus(Cut(text, start))))
    ensures end.Some? ==> start < end.value
  {
    hide Cut, AfterDigits;
    var position := start;
    CutEnds(text);
    if position < |text| {
      CutStep(text, position);
    }
    if position < |text| && text[position] == '-' {
      position := position + 1;
    }
    if position == |text| {
      return None;
    }
    CutStep(text, position);
    if text[position] == '0' {
      position := position + 1;
      if position < |text| {
        CutStep(text, position);
      }
      if position < |text| && IsDigit(text[position]) {
        return None;
      }
    } else {
      if text[position] < '1' || text[position] > '9' {
        return None;
      }
      position := SkipDigits(text, position);
    }
    return Some(position);
  }

  method ScanFraction(text: string, start: nat) returns (end: Option<nat>)
    requires start <= |text|
    ensures EndsAs(text, end, AfterFraction(Cut(text, start)))
    ensures end.Some? ==> start <= end.value
  {
    hide Cut, AfterDigits;
    var position := start;
    CutEnds(text);
    if position < |text| {
      CutStep(text, position);
    }
    if position < |text| && text[position] == '.' {
      var digits := position + 1;
      position := SkipDigits(text, digits);
      if digits == position {
        return None;
      }
    }
    return Some(position);
  }

  method ScanExponent(text: string, start: nat) returns (end: Option<nat>)
    requires start <= |text|
    ensures EndsAs(text, end, AfterExponent(Cut(text, start)))
    ensures end.Some? ==> start <= end.value
  {
    hide Cut, AfterDigits;
    var position := start;
    CutEnds(text);
    if position < |text| {
      CutStep(text, position);
    }
    if position < |text| && (text[position] == 'e' || text[position] == 'E') {
      position := position + 1;
      if position < |text| {
        CutStep(text, position);
      }
      if position < |text| && (text[position] == '+' || text[position] == '-') {
        position := position + 1;
      }
      var digits := position;
      position := SkipDigits(text, digits);
      if digits == position {
        return None;
      }
    }
    return Some(position);
  }

  /** The grammar that the parser and the number check both walk through. */
  method ScanNumber(text: string, start: nat) returns (end: Option<nat>)
    requires start <= |text|
    ensures EndsAs(text, end, AfterNumber(Cut(text, start)))
    ensures end.Some? ==> start < end.value
  {
    hide Cut, AfterInt, AfterMinus, AfterFraction, AfterExponent;
    end := ScanInteger(text, start);
    if end.None? {
      return;
    }
    var whole := end.value;
    end := ScanFraction(text, whole);
    if end.None? {
      return;
    }
    end := ScanExponent(text, end.value);
  }

  /** Builds a number from its text if the text is a number and nothing else. */
  method MakeNumber(text: string) returns (v: Option<Value>)
    ensures v == if AcceptedNumber(text) then Some(Number(text)) else None
  {
    hide Cut, AfterNumber;
    CutEnds(text);
    var end := ScanNumber(text, 0);
    if end.None? {
      return None;
    }
    if end.value != |text| {
      CutStep(text, end.value);
      return None;
    }
    return Some(Number(text));
  }

  // ---------------------------------------------------------------- the parser

  /** What is read of a \u escape: the value of the first n digits. */
  function HexPrefix(s: string, n: nat): nat
    requires n <= |s|
  {
    if n == 0 then 0 else HexPrefix(s, n - 1) * 16 + (if HexValue(s[n - 1]).Some? then HexValue(s[n - 1]).value else 0)
  }

  lemma Hex4IsPrefix(s: string)
    requires |s| >= 4
    ensures Hex4(s).Some? <==> forall k :: 0 <= k < 4 ==> HexValue(s[k]).Some?
    ensures Hex4(s).Some? ==> Hex4(s).value == HexPrefix(s, 4)
  {
    hide HexValue;
    assert HexPrefix(s, 1) == (if HexValue(s[0]).Some? then HexValue(s[0]).value else 0);
    assert HexPrefix(s, 3) == HexPrefix(s, 2) * 16 + (if HexValue(s[2]).Some? then HexValue(s[2]).value else 0);
  }

  /** Parse results in front of which more has been read. */
  function Onto<T>(read: seq<T>, p: Parsed<seq<T>>): Parsed<seq<T>> {
    if p.Fail? then Fail else Done(read + p.value, p.rest)
  }

  class Parser {
    const input: string
    var position: nat

    constructor (input: string)
      ensures Valid() && this.input == input && Rest() == input
    {
      this.input := input;
      position := 0;
    }

    predicate Valid()
      reads this
    {
      position <= |input|
    }

    /** The text that is still to be read. */
    function Rest(): string
      requires Valid()
      reads this
    {
      Cut(input, position)
    }

    method SkipWhite()
      requires Valid()
      modifies this
      ensures Valid() && position >= old(position) && Rest() == SkipSpace(old(Rest()))
    {
      hide Cut;
      CutEnds(input);
      while position < |input| && IsSpace(input[position])
        invariant old(position) <= position <= |input|
        invariant SkipSpace(old(Rest())) == SkipSpace(Rest())
      {
        CutStep(input, position);
        position := position + 1;
      }
      if position < |input| {
        CutStep(input, position);
      }
    }

    method Consume(c: char) returns (ok: bool)
      requires Valid()
      modifies this
      ensures Valid() && ok == StartsWith(old(Rest()), c)
      ensures position == old(position) + (if ok then 1 else 0)
      ensures Rest() == if ok then old(Rest())[1..] else old(Rest())
    {
      if position < |input| {
        CutStep(input, position);
      }
      ok := position < |input| && input[position] == c;
      if ok {
        position := position + 1;
      }
    }

    method ReadLiteral(word: string, v: Value) returns (r: Option<Value>)
      requires Valid()
      modifies this
      ensures Valid() && position >= old(position) && Agrees(r, Rest(), Literal(old(Rest()), word, v))
      ensures r.Some? ==> position == old(position) + |word|
    {
      if position + |word| <= |input| && input[position..position + |word|] == word {
        assert Rest()[..|word|] == word;
        position := position + |word|;
        return Some(v);
      }
      assert !HasPrefix(Rest(), word) by {
        if |word| <= |Rest()| {
          assert Rest()[..|word|] == input[position..position + |word|];
        }
      }
      return None;
    }

    method ReadHex4() returns (r: Option<nat>)
      requires Valid()
      modifies this
      ensures Valid() && position >= old(position) && r == Hex4(old(Rest()))
      ensures r.Some? ==> position == old(position) + 4
    {
      if position + 4 > |input| {
        return None;
      }
      ghost var start, s := position, Rest();
      var value := 0;
      Hex4IsPrefix(s);
      for index := 0 to 4
        invariant position == start + index && value == HexPrefix(s, index)
        invariant forall k :: 0 <= k < index ==> HexValue(s[k]).Some?
      {
        var digit := HexValue(input[position]);
        assert input[position] == s[index];
        position := position + 1;
        if digit.None? {
          return None;
        }
        value := value * 16 + digit.value;
      }
      return Some(value);
    }

    /** Behind \u. */
    method ReadUnicode() returns (r: Option<nat>)
      requires Valid()
      modifies this
      ensures Valid() && position >= old(position) && Agrees(r, Rest(), UnicodeEscape(old(Rest())))
    {
      hide Hex4;
      ghost var s, start := Rest(), position;
      var point := ReadHex4();
      if point.None? {
        return None;
      }
      assert Rest() == s[4..];
      assert |s| >= 6 <==> position + 2 <= |input|;
      assert |s| >= 6 ==> s[4] == input[position] && s[5] == input[position + 1];
      if 0xD800 <= point.value <= 0xDBFF {
        if position + 2 > |input| || input[position] != BACKSLASH || input[position + 1] != 'u' {
          return None;
        }
        position := position + 2;
        assert Rest() == s[6..];
        var low := ReadHex4();
        if low.None? || low.value < 0xDC00 || low.value > 0xDFFF {
          return None;
        }
        assert Rest() == s[10..];
        return Some(0x10000 + (point.value - 0xD800) * 0x400 + (low.value - 0xDC00));
      }
      return if 0xDC00 <= point.value <= 0xDFFF then None else point;
    }

    /** One plain byte or escape of a string. */
    method ReadUnit() returns (r: Option<string>)
      requires Valid() && Rest() != "" && Rest()[0] != QUOTE
      modifies this
      ensures Valid() && position >= old(position) && Agrees(r, Rest(), StringUnit(old(Rest())))
      ensures r.Some? ==> position > old(position)
    {
      hide UnicodeEscape, Cut;
      ghost var s := Rest();
      CutEnds(input);
      CutStep(input, position);
      var value := input[position];
      position := position + 1;
      if value < ' ' {
        return None;
      }
      if value != BACKSLASH {
        return Some([value]);
      }
      if position >= |input| {
        return None;
      }
      CutStep(input, position);
      assert s[2..] == s[1..][1..];
      var escape := input[position];
      position := position + 1;
      if escape == 'u' {
        UnicodeEncodes(s[2..]);
        var point := ReadUnicode();
        return if point.Some? then Utf8(point.value) else None;
      }
      var plain := SimpleEscape(escape);
      return if plain.Some? then Some([plain.value]) else None;
    }

    method ReadString() returns (r: Option<string>)
      requires Valid()
      modifies this
      ensures Valid() && position >= old(position) && Agrees(r, Rest(), ParseString(old(Rest())))
      ensures r.Some? ==> position > old(position)
    {
      hide StringUnit, Cut;
      CutEnds(input);
      var open := Consume(QUOTE);
      if !open {
        return None;
      }
      ghost var body := StringBody(Rest());
      var out := "";
      OntoNothing(body);
      while position < |input|
        invariant old(position) < position <= |input|
        invariant body == Onto(out, StringBody(Rest()))
        decreases |input| - position
      {
        CutStep(input, position);
        if input[position] == QUOTE {
          position := position + 1;
          assert out + "" == out;
          return Some(out);
        }
        var unit := ReadUnit();
        if unit.None? {
          return None;
        }
        OntoTwice(out, unit.value, StringBody(Rest()));
        out := out + unit.value;
      }
      return None;
    }

    method ReadNumber() returns (r: Option<string>)
      requires Valid()
      modifies this
      ensures Valid() && position >= old(position)
      ensures var rest := AfterNumber(old(Rest())); if rest.None? then r.None?
        else Rest() == rest.value && |rest.value| <= |old(Rest())| && r == Some(Front(old(Rest()), rest.value))
      ensures r.Some? ==> position > old(position)
    {
      hide AfterNumber, Cut;
      var start := position;
      var end := ScanNumber(input, start);
      if end.None? {
        return None;
      }
      position := end.value;
      CutFront(input, start, position);
      NumberSuffix(Cut(input, start));
      return Some(input[start..position]);
    }

    method ReadValue(depth: nat) returns (r: Option<Value>)
      requires Valid()
      modifies this
      ensures Valid() && position >= old(position) && Agrees(r, Rest(), ParseValue(old(Rest()), depth))
      ensures r.Some? ==> position > old(position)
      decreases |input| - position, 1
    {
      hide Cut, ParseArray, ParseObject, ParseString, Literal, AfterNumber;
      ghost var s := Rest();
      CutEnds(input);
      if depth > MAX_DEPTH {
        return None;
      }
      SkipWhite();
      if position >= |input| {
        return None;
      }
      CutStep(input, position);
      ghost var t := Rest();
      match input[position] {
        case 'n' => r := ReadLiteral("null", Null);
        case 't' => r := ReadLiteral("true", Bool(true));
        case 'f' => r := ReadLiteral("false", Bool(false));
        case '\"' =>
          var text := ReadString();
          r := if text.None? then None else Some(Str(text.value));
        case '[' =>
          var items := ReadArray(depth);
          r := if items.None? then None else Some(Arr(items.value));
        case '{' =>
          var members := ReadObject(depth);
          r := if members.None? then None else Some(Obj(members.value));
        case _ =>
          if input[position] != '-' && !IsDigit(input[position]) {
            return None;
          }
          var text := ReadNumber();
          if text.None? {
            return None;
          }
          SliceIsAccepted(t);
          r := MakeNumber(text.value);
          assert r.Some?;
      }
    }

    method ReadArray(depth: nat) returns (r: Option<seq<Value>>)
      requires Valid()
      modifies this
      ensures Valid() && position >= old(position)
      ensures if StartsWith(old(Rest()), '[') then Agrees(r, Rest(), ParseArray(old(Rest())[1..], depth)) else r.None?
      ensures r.Some? ==> position > old(position)
      decreases |input| - position, 0
    {
      hide Cut, ParseValue;
      var open := Consume('[');
      if !open {
        return None;
      }
      ghost var all := ParseArray(Rest(), depth);
      SkipWhite();
      var empty := Consume(']');
      if empty {
        return Some([]);
      }
      var values: seq<Value> := [];
      OntoNothing(all);
      while true
        invariant old(position) < position <= |input|
        invariant all == Onto(values, ParseElements(Rest(), depth))
        decreases |input| - position
      {
        ghost var s := Rest();
        var v := ReadValue(depth + 1);
        if v.None? {
          return None;
        }
        SkipWhite();
        var closed := Consume(']');
        if closed {
          return Some(values + [v.value]);
        }
        var comma := Consume(',');
        if !comma {
          return None;
        }
        SkipWhite();
        OntoTwice(values, [v.value], ParseElements(Rest(), depth));
        values := values + [v.value];
      }
    }

    method ReadObject(depth: nat) returns (r: Option<seq<Member>>)
      requires Valid()
      modifies this
      ensures Valid() && position >= old(position)
      ensures if StartsWith(old(Rest()), '{') then Agrees(r, Rest(), ParseObject(old(Rest())[1..], depth)) else r.None?
      ensures r.Some? ==> position > old(position)
      decreases |input| - position, 0
    {
      hide Cut, ParseMember, Emplace;
      var open := Consume('{');
      if !open {
        return None;
      }
      ghost var all := ParseObject(Rest(), depth);
      SkipWhite();
      var empty := Consume('}');
      if empty {
        return Some([]);
      }
      var members: seq<Member> := [];
      while true
        invariant old(position) < position <= |input|
        invariant all == ParseMembers(Rest(), depth, members)
        decreases |input| - position
      {
        var m := ReadMember(depth);
        if m.None? {
          return None;
        }
        var inserted := Emplace(members, m.value);
        if inserted.None? {
          return None;
        }
        members := inserted.value;
        SkipWhite();
        var closed := Consume('}');
        if closed {
          return Some(members);
        }
        var comma := Consume(',');
        if !comma {
          return None;
        }
        SkipWhite();
      }
    }

    /** Key, colon and value of one member, inside the loop over members. */
    method ReadMember(depth: nat) returns (r: Option<Member>)
      requires Valid()
      modifies this
      ensures Valid() && position >= old(position) && Agrees(r, Rest(), ParseMember(old(Rest()), depth))
      ensures r.Some? ==> position > old(position)
      decreases |input| - position, 2
    {
      hide Cut, ParseValue, ParseString;
      var key := ReadString();
      if key.None? {
        return None;
      }
      SkipWhite();
      var colon := Consume(':');
      if !colon {
        return None;
      }
      SkipWhite();
      var v := ReadValue(depth + 1);
      return if v.None? then None else Some(Member(key.value, v.value));
    }

    method ReadDocument() returns (r: Option<Value>)
      requires Valid() && position == 0
      modifies this
      ensures Valid() && r == ParseDocument(input)
    {
      hide Cut, ParseValue;
      CutEnds(input);
      SkipWhite();
      var v := ReadValue(0);
      if v.None? {
        return None;
      }
      SkipWhite();
      if position < |input| {
        CutStep(input, position);
      }
      return if position != |input| then None else v;
    }
  }

  // ---------------------------------------------------------------- the printer

  /** Printed items, one comma in front of each but the first. */
  function CommaItems(items: seq<Value>, escape: char -> string, n: nat): string
    requires n <= |items|
  {
    if n == 0 then ""
    else CommaItems(items, escape, n - 1) + (if n == 1 then "" else ",") + Dump(items[n - 1], escape)
  }

  lemma {:induction false} CommaItemsIsDump(items: seq<Value>, escape: char -> string, n: nat)
    requires 0 < n <= |items|
    ensures CommaItems(items, escape, |items|) ==
            CommaItems(items, escape, n) + (if n == |items| then "" else "," + DumpItems(items[n..], escape))
    decreases |items| - n
  {
    hide Dump;
    if n < |items| {
      CommaItemsIsDump(items, escape, n + 1);
      assert items[n..][1..] == items[n + 1..];
    }
  }

  function CommaMembers(members: seq<Member>, escape: char -> string, n: nat): string
    requires n <= |members|
  {
    if n == 0 then ""
    else CommaMembers(members, escape, n - 1) + (if n == 1 then "" else ",") + DumpMember(members[n - 1], escape)
  }

  lemma {:induction false} CommaMembersIsDump(members: seq<Member>, escape: char -> string, n: nat)
    requires 0 < n <= |members|
    ensures CommaMembers(members, escape, |members|) ==
            CommaMembers(members, escape, n) + (if n == |members| then "" else "," + DumpMembers(members[n..], escape))
    decreases |members| - n
  {
    hide DumpMember;
    if n < |members| {
      CommaMembersIsDump(members, escape, n + 1);
      assert members[n..][1..] == members[n + 1..];
    }
  }

  lemma AllItems(items: seq<Value>, escape: char -> string)
    ensures CommaItems(items, escape, |items|) == DumpItems(items, escape)
  {
    hide Dump;
    if items != [] {
      CommaItemsIsDump(items, escape, 1);
      assert CommaItems(items, escape, 1) == Dump(items[0], escape);
    }
  }

  lemma AllMembers(members: seq<Member>, escape: char -> string)
    ensures CommaMembers(members, escape, |members|) == DumpMembers(members, escape)
  {
    hide DumpMember;
    if members != [] {
      CommaMembersIsDump(members, escape, 1);
      assert CommaMembers(members, escape, 1) == DumpMember(members[0], escape);
    }
  }

  /** The printer. */
  method Print(v: Value, escape: char -> string) returns (out: string)
    ensures out == Dump(v, escape)
    decreases v, 0
  {
    hide DumpItems, DumpMembers, Quoted;
    match v {
      case Null => return "null";
      case Bool(b) => return if b then "true" else "false";
      case Number(text) => return text;
      case Str(s) => return Quoted(s, escape);
      case Arr(items) => out := PrintItems(items, escape);
      case Obj(members) => out := PrintMembers(members, escape);
    }
  }

  method PrintItems(items: seq<Value>, escape: char -> string) returns (out: string)
    ensures out == "[" + DumpItems(items, escape) + "]"
    decreases items, 1
  {
    hide Dump, DumpItems;
    out := "[";
    var first := true;
    for i := 0 to |items|
      invariant first == (i == 0) && out == "[" + CommaItems(items, escape, i)
    {
      if !first {
        out := out + ",";
      }
      first := false;
      var item := Print(items[i], escape);
      out := out + item;
    }
    AllItems(items, escape);
    out := out + "]";
  }

  method PrintMembers(members: seq<Member>, escape: char -> string) returns (out: string)
    ensures out == "{" + DumpMembers(members, escape) + "}"
    decreases members, 1
  {
    hide Dump, DumpMembers, Quoted;
    out := "{";
    var first := true;
    for i := 0 to |members|
      invariant first == (i == 0) && out == "{" + CommaMembers(members, escape, i)
    {
      if !first {
        out := out + ",";
      }
      first := false;
      out := out + Quoted(members[i].key, escape);
      out := out + ":";
      var value := Print(members[i].value, escape);
      out := out + value;
    }
    AllMembers(members, escape);
    out := out + "}";
  }

  lemma UnicodeEncodes(s: string)
    ensures UnicodeEscape(s).Done? ==> Utf8(UnicodeEscape(s).value).Some?
  {
    if UnicodeEscape(s).Done? {
      UnicodeEscapeEncodes(s);
    }
  }

  lemma SliceIsAccepted(s: string)
    ensures AfterNumber(s).Some? ==> |AfterNumber(s).value| <= |s| && AcceptedNumber(Front(s, AfterNumber(s).value))
  {
    hide AfterNumber, IsRfcNumber;
    if AfterNumber(s).Some? {
      NumberSuffix(s);
      AcceptedIsRfc(Front(s, AfterNumber(s).value));
    }
  }

  lemma OntoNothing<T>(p: Parsed<seq<T>>)
    ensures Onto([], p) == p
  {
    if p.Done? {
      assert [] + p.value == p.value;
    }
  }

  lemma OntoTwice<T>(a: seq<T>, b: seq<T>, p: Parsed<seq<T>>)
    ensures Onto(a, Onto(b, p)) == Onto(a + b, p)
  {
    if p.Done? {
      assert a + (b + p.value) == a + b + p.value;
    }
  }
}
