/** Printing and parsing in native/json.cpp: a printed value is a text of the grammar, so the
  * parser's answer to it is known, refusals included. */
module JsonRoundTrip {
  import opened Wrappers
  import opened JsonNumbers
  import opened JsonText
  import opened JsonGrammar

  // ---------------------------------------------------------------- values

  /** What every value built by the class satisfies: accepted number texts, ordered keys. */
  ghost predicate WellFormed(v: Value) {
    match v
    case Number(text) => AcceptedNumber(text)
    case Arr(items) => forall i :: 0 <= i < |items| ==> WellFormed(items[i])
    case Obj(members) => SortedKeys(members) && forall i :: 0 <= i < |members| ==> WellFormed(members[i].value)
    case _ => true
  }

  /** No string and no key contains a NUL byte. */
  ghost predicate AllNulFree(v: Value) {
    match v
    case Str(s) => NulFree(s)
    case Arr(items) => forall i :: 0 <= i < |items| ==> AllNulFree(items[i])
    case Obj(members) => forall i :: 0 <= i < |members| ==> NulFree(members[i].key) && AllNulFree(members[i].value)
    case _ => true
  }

  /** Nesting of the value is at most so deep; scalars and empty containers have depth 0. */
  ghost predicate NotDeeper(v: Value, depth: int) {
    && depth >= 0
    && match v
       case Arr(items) => forall i :: 0 <= i < |items| ==> NotDeeper(items[i], depth - 1)
       case Obj(members) => forall i :: 0 <= i < |members| ==> NotDeeper(members[i].value, depth - 1)
       case _ => true
  }

  // ---------------------------------------------------------------- the printer writes the grammar

  function UnitsOf(s: string, escape: char -> string): seq<Unit> {
    if s == "" then [] else [Unit(escape(s[0]), [s[0]])] + UnitsOf(s[1..], escape)
  }

  /** The syntax tree of a printed value: no white space, strings cut at the first NUL. */
  function TreeOf(v: Value, escape: char -> string): Tree
    decreases v, 0
  {
    match v
    case Null => NullTree
    case Bool(b) => BoolTree(b)
    case Number(text) => NumberTree(text)
    case Str(s) => StringTree(UnitsOf(CString(s), escape))
    case Arr(items) => ArrayTree("", ItemsOf(items, escape))
    case Obj(members) => ObjectTree("", FieldsOf(members, escape))
  }

  function ItemsOf(values: seq<Value>, escape: char -> string): (r: seq<Item>)
    ensures |r| == |values|
    decreases values, 1
  {
    if values == [] then [] else [Item("", TreeOf(values[0], escape), "")] + ItemsOf(values[1..], escape)
  }

  function FieldOf(m: Member, escape: char -> string): Field
    decreases m, 1
  {
    Field("", UnitsOf(CString(m.key), escape), "", "", TreeOf(m.value, escape), "")
  }

  function FieldsOf(members: seq<Member>, escape: char -> string): (r: seq<Field>)
    ensures |r| == |members|
    decreases members, 2
  {
    if members == [] then [] else [FieldOf(members[0], escape)] + FieldsOf(members[1..], escape)
  }

  lemma {:induction false} EscapedText(t: string, escape: char -> string, rest: string)
    ensures EscapeAll(t, escape) + rest == UnitsOnto(UnitsOf(t, escape), rest)
    decreases |t|
  {
    if t != "" {
      EscapedText(t[1..], escape, rest);
      assert UnitsOf(t, escape)[1..] == UnitsOf(t[1..], escape);
      Assoc(escape(t[0]), EscapeAll(t[1..], escape), rest);
    }
  }

  lemma Assoc(a: string, b: string, c: string)
    ensures (a + b) + c == a + (b + c)
  {}

  lemma QuotedText(s: string, escape: char -> string, rest: string)
    ensures Quoted(s, escape) + rest == StringOnto(UnitsOf(CString(s), escape), rest)
  {
    hide UnitsOnto, EscapeAll, UnitsOf;
    var t := CString(s);
    EscapedText(t, escape, [QUOTE] + rest);
    Assoc([QUOTE] + EscapeAll(t, escape), [QUOTE], rest);
    Assoc([QUOTE], EscapeAll(t, escape), [QUOTE] + rest);
  }

  /** Printing a value writes its tree. */
  lemma {:induction false} DumpText(v: Value, escape: char -> string, rest: string)
    ensures Dump(v, escape) + rest == TreeOnto(TreeOf(v, escape), rest)
    decreases v, 0
  {
    hide ItemsOf, FieldsOf, ItemsOnto, FieldsOnto, DumpItems, DumpMembers, Quoted, UnitsOf, StringOnto;
    match v {
      case Str(s) => QuotedText(s, escape, rest);
      case Arr(items) =>
        ItemsText(items, escape, rest);
        Bracketed("[", DumpItems(items, escape), "]", rest);
      case Obj(members) =>
        FieldsText(members, escape, rest);
        Bracketed("{", DumpMembers(members, escape), "}", rest);
      case _ =>
    }
  }

  lemma Bracketed(open: string, body: string, close: string, rest: string)
    ensures open + body + close + rest == open + (body + (close + rest))
    ensures body == "" ==> open + body + close + rest == open + ("" + (close + rest))
  {}

  lemma {:induction false} ItemsText(values: seq<Value>, escape: char -> string, rest: string)
    ensures values != [] ==> DumpItems(values, escape) + ("]" + rest) == ItemsOnto(ItemsOf(values, escape), rest)
    ensures values == [] ==> DumpItems(values, escape) == "" && ItemsOf(values, escape) == []
    decreases values, 1
  {
    hide Dump, TreeOf, TreeOnto;
    if values != [] {
      var items := ItemsOf(values, escape);
      var first := Dump(values[0], escape);
      assert items[1..] == ItemsOf(values[1..], escape);
      if |values| == 1 {
        DumpText(values[0], escape, "]" + rest);
        Unspaced(TreeOnto(items[0].tree, "]" + rest), "]" + rest);
      } else {
        ItemsText(values[1..], escape, rest);
        var more := DumpItems(values[1..], escape);
        DumpText(values[0], escape, "," + (more + ("]" + rest)));
        Separated(first, ",", more, "]" + rest);
        Unspaced(TreeOnto(items[0].tree, "," + (more + ("]" + rest))), "," + (more + ("]" + rest)));
      }
    }
  }

  lemma Separated(a: string, b: string, c: string, d: string)
    ensures (a + b + c) + d == a + (b + (c + d))
  {}

  lemma Unspaced(s: string, tail: string)
    ensures "" + s == s && "" + tail == tail
  {}

  lemma FieldText(m: Member, escape: char -> string, tail: string)
    ensures DumpMember(m, escape) + tail == FieldOnto(FieldOf(m, escape), tail)
    decreases m, 1
  {
    hide Dump, TreeOf, TreeOnto, Quoted, UnitsOf, StringOnto;
    var v := Dump(m.value, escape);
    DumpText(m.value, escape, tail);
    QuotedText(m.key, escape, ":" + (v + tail));
    Separated(Quoted(m.key, escape), ":", v, tail);
    Unspaced(v + tail, tail);
    Unspaced(":" + (v + tail), "");
  }

  lemma {:induction false} FieldsText(members: seq<Member>, escape: char -> string, rest: string)
    ensures members != [] ==> DumpMembers(members, escape) + ("}" + rest) == FieldsOnto(FieldsOf(members, escape), rest)
    ensures members == [] ==> DumpMembers(members, escape) == "" && FieldsOf(members, escape) == []
    decreases members, 2
  {
    hide DumpMember, FieldOf, FieldOnto;
    if members != [] {
      var fields := FieldsOf(members, escape);
      var first := DumpMember(members[0], escape);
      assert fields[1..] == FieldsOf(members[1..], escape);
      FieldBefore(members[0], escape);
      if |members| == 1 {
        FieldText(members[0], escape, "}" + rest);
        Unspaced(FieldOnto(fields[0], "}" + rest), "");
      } else {
        FieldsText(members[1..], escape, rest);
        var more := DumpMembers(members[1..], escape);
        FieldText(members[0], escape, "," + (more + ("}" + rest)));
        Separated(first, ",", more, "}" + rest);
        Unspaced(FieldOnto(fields[0], "," + (more + ("}" + rest))), "");
      }
    }
  }

  lemma FieldBefore(m: Member, escape: char -> string)
    ensures FieldOf(m, escape).before == ""
  {}

  lemma EscapeIsUnit(c: char, e: string)
    requires IsEscapeOf(e, c)
    ensures IsUnit(Unit(e, [c]))
  {
    hide Hex4;
    if |e| == 1 {
      assert [c] == e;
    }
  }

  lemma {:induction false} UnitsAreGrammatical(t: string, escape: char -> string)
    requires EscaperContract(escape) && NulFree(t)
    ensures AllUnits(UnitsOf(t, escape)) && Bytes(UnitsOf(t, escape)) == t
    decreases |t|
  {
    hide IsUnit, IsEscapeOf;
    if t != "" {
      UnitsAreGrammatical(t[1..], escape);
      EscapeIsUnit(t[0], escape(t[0]));
      assert UnitsOf(t, escape)[1..] == UnitsOf(t[1..], escape);
      assert [t[0]] + t[1..] == t;
    }
  }

  lemma StringIsGrammatical(s: string, escape: char -> string)
    requires EscaperContract(escape)
    ensures AllUnits(UnitsOf(CString(s), escape)) && Bytes(UnitsOf(CString(s), escape)) == CString(s)
    ensures NulFree(CString(s)) && (CString(s) == s <==> NulFree(s))
  {
    CStringIsNulFree(s);
    UnitsAreGrammatical(CString(s), escape);
  }

  lemma {:induction false} TreeOfIsGrammatical(v: Value, escape: char -> string)
    requires EscaperContract(escape) && WellFormed(v)
    ensures Grammatical(TreeOf(v, escape))
    decreases v, 0
  {
    hide EscaperContract, IsRfcNumber, AllUnits, UnitsOf, AcceptedNumber, ItemsOf, FieldsOf, GrammaticalItem,
         GrammaticalField, SortedKeys;
    Marks();
    match v {
      case Number(text) => AcceptedIsRfc(text);
      case Str(s) => StringIsGrammatical(s, escape);
      case Arr(items) => ItemsAreGrammatical(items, escape);
      case Obj(members) => FieldsAreGrammatical(members, escape);
      case _ =>
    }
  }

  lemma {:induction false} ItemsAreGrammatical(values: seq<Value>, escape: char -> string)
    requires EscaperContract(escape) && forall i :: 0 <= i < |values| ==> WellFormed(values[i])
    ensures forall i :: 0 <= i < |values| ==> GrammaticalItem(ItemsOf(values, escape)[i])
    decreases values, 1
  {
    hide EscaperContract, WellFormed, Grammatical, TreeOf, IsWs;
    if values != [] {
      Marks();
      TreeOfIsGrammatical(values[0], escape);
      ItemsAreGrammatical(values[1..], escape);
    }
  }

  lemma {:induction false} FieldsAreGrammatical(members: seq<Member>, escape: char -> string)
    requires EscaperContract(escape) && forall i :: 0 <= i < |members| ==> WellFormed(members[i].value)
    ensures forall i :: 0 <= i < |members| ==> GrammaticalField(FieldsOf(members, escape)[i])
    decreases members, 1
  {
    hide EscaperContract, WellFormed, Grammatical, TreeOf, IsWs, AllUnits, UnitsOf;
    if members != [] {
      Marks();
      StringIsGrammatical(members[0].key, escape);
      TreeOfIsGrammatical(members[0].value, escape);
      FieldsAreGrammatical(members[1..], escape);
    }
  }

  // ---------------------------------------------------------------- what a printed value denotes

  /** A printed value denotes itself if no string is cut and it is not too deep; what it denotes
    * never contains a NUL. */
  lemma {:induction false} PrintedDenotes(v: Value, escape: char -> string, depth: nat)
    requires EscaperContract(escape) && WellFormed(v)
    ensures AllNulFree(v) && NotDeeper(v, 64 - depth) ==> Outcome(TreeOf(v, escape), depth) == Some(v)
    ensures var o := Outcome(TreeOf(v, escape), depth); o.Some? ==> AllNulFree(o.value)
    decreases v, 0
  {
    hide EscaperContract, AcceptedNumber, ItemsOf, FieldsOf, OutcomeItems, OutcomeFields, UnitsOf, Bytes, NulFree;
    match v {
      case Str(s) => StringIsGrammatical(s, escape);
      case Arr(items) => ItemsDenote(items, escape, depth);
      case Obj(members) =>
        assert [] + members == members;
        FieldsAreNulFree([], members, escape, depth);
        if AllNulFree(v) && NotDeeper(v, 64 - depth) {
          FieldsDenote([], members, escape, depth);
        }
      case _ =>
    }
  }

  lemma {:induction false} ItemsDenote(values: seq<Value>, escape: char -> string, depth: nat)
    requires EscaperContract(escape) && forall i :: 0 <= i < |values| ==> WellFormed(values[i])
    ensures (forall i :: 0 <= i < |values| ==> AllNulFree(values[i]) && NotDeeper(values[i], 64 - depth - 1)) ==>
              OutcomeItems(ItemsOf(values, escape), depth) == Some(values)
    ensures var o := OutcomeItems(ItemsOf(values, escape), depth); o.Some? ==> forall i :: 0 <= i < |o.value| ==> AllNulFree(o.value[i])
    decreases values, 1
  {
    hide EscaperContract, WellFormed, AllNulFree, NotDeeper, TreeOf, Outcome;
    if values != [] {
      PrintedDenotes(values[0], escape, depth + 1);
      ItemsDenote(values[1..], escape, depth);
      assert ItemsOf(values, escape)[1..] == ItemsOf(values[1..], escape);
      assert [values[0]] + values[1..] == values;
    }
  }

  ghost predicate NulFreeMembers(members: seq<Member>) {
    forall m :: m in members ==> NulFree(m.key) && AllNulFree(m.value)
  }

  lemma OneFieldDenotes(read: seq<Member>, members: seq<Member>, escape: char -> string, depth: nat)
    requires EscaperContract(escape) && members != []
    ensures var v := Outcome(TreeOf(members[0].value, escape), depth + 1);
            var now := if v.None? then None else Emplace(read, Member(CString(members[0].key), v.value));
            OutcomeFields(read, FieldsOf(members, escape), depth) ==
            if now.None? then None else OutcomeFields(now.value, FieldsOf(members[1..], escape), depth)
  {
    hide EscaperContract, Outcome, TreeOf, Emplace, UnitsOf, Bytes;
    StringIsGrammatical(members[0].key, escape);
    assert FieldsOf(members, escape)[1..] == FieldsOf(members[1..], escape);
  }

  lemma {:induction false} FieldsDenote(read: seq<Member>, members: seq<Member>, escape: char -> string, depth: nat)
    requires EscaperContract(escape) && SortedKeys(read + members)
    requires forall i :: 0 <= i < |members| ==>
               WellFormed(members[i].value) && NulFree(members[i].key) && AllNulFree(members[i].value)
               && NotDeeper(members[i].value, 64 - depth - 1)
    ensures OutcomeFields(read, FieldsOf(members, escape), depth) == Some(read + members)
    decreases members, 2
  {
    hide EscaperContract, WellFormed, AllNulFree, NotDeeper, TreeOf, Outcome, OutcomeFields, FieldsOf, Emplace,
         SortedKeys, NulFree;
    if members == [] {
      assert read + members == read;
      NoFields(read, escape, depth);
    } else {
      var m := members[0];
      OneFieldDenotes(read, members, escape, depth);
      CStringIsNulFree(m.key);
      PrintedDenotes(m.value, escape, depth + 1);
      ReadBelow(read, members);
      EmplaceLast(read, m);
      assert (read + [m]) + members[1..] == read + members;
      FieldsDenote(read + [m], members[1..], escape, depth);
    }
  }

  lemma NoFields(read: seq<Member>, escape: char -> string, depth: nat)
    ensures OutcomeFields(read, FieldsOf([], escape), depth) == Some(read)
  {}

  lemma {:induction false} FieldsAreNulFree(read: seq<Member>, members: seq<Member>, escape: char -> string, depth: nat)
    requires EscaperContract(escape) && SortedKeys(read) && NulFreeMembers(read)
    requires forall i :: 0 <= i < |members| ==> WellFormed(members[i].value)
    ensures var o := OutcomeFields(read, FieldsOf(members, escape), depth); o.Some? ==> NulFreeMembers(o.value)
    decreases members, 2
  {
    hide EscaperContract, WellFormed, AllNulFree, TreeOf, Outcome, OutcomeFields, FieldsOf, Emplace, SortedKeys,
         NulFree;
    if members == [] {
      NoFields(read, escape, depth);
    } else {
      var m := members[0];
      OneFieldDenotes(read, members, escape, depth);
      CStringIsNulFree(m.key);
      PrintedDenotes(m.value, escape, depth + 1);
      var v := Outcome(TreeOf(m.value, escape), depth + 1);
      if v.Some? {
        var cut := Member(CString(m.key), v.value);
        EmplaceExact(read, cut);
        if Emplace(read, cut).Some? {
          FieldsAreNulFree(Emplace(read, cut).value, members[1..], escape, depth);
        }
      }
    }
  }

  lemma ReadBelow(read: seq<Member>, members: seq<Member>)
    requires SortedKeys(read + members) && members != []
    ensures forall i :: 0 <= i < |read| ==> Less(read[i].key, members[0].key)
  {
    var all := read + members;
    forall i | 0 <= i < |read|
      ensures Less(read[i].key, members[0].key)
    {
      assert all[i] == read[i] && all[|read|] == members[0];
    }
  }

  // ---------------------------------------------------------------- what texts can denote

  ghost predicate GoodMembers(members: seq<Member>, depth: int) {
    SortedKeys(members) && forall m :: m in members ==> WellFormed(m.value) && NotDeeper(m.value, depth)
  }

  /** Whatever a text denotes is well formed and within the depth bound. */
  lemma {:induction false} DenotedIsGood(t: Tree, depth: nat)
    requires Grammatical(t) && Outcome(t, depth).Some?
    ensures WellFormed(Outcome(t, depth).value) && NotDeeper(Outcome(t, depth).value, 64 - depth)
    decreases t, 1
  {
    hide IsRfcNumber, AllUnits, AcceptedNumber, OutcomeItems, OutcomeFields, GrammaticalItem, GrammaticalField, Bytes;
    match t {
      case NumberTree(text) => AcceptedIsRfc(text);
      case ArrayTree(_, items) => ItemsAreGood(items, depth);
      case ObjectTree(_, fields) => FieldsAreGood([], fields, depth);
      case _ =>
    }
  }

  lemma {:induction false} ItemsAreGood(items: seq<Item>, depth: nat)
    requires (forall i :: 0 <= i < |items| ==> GrammaticalItem(items[i])) && OutcomeItems(items, depth).Some?
    ensures forall i :: 0 <= i < |OutcomeItems(items, depth).value| ==>
              WellFormed(OutcomeItems(items, depth).value[i]) && NotDeeper(OutcomeItems(items, depth).value[i], 64 - depth - 1)
    decreases items, 2
  {
    hide Outcome, Grammatical, WellFormed, NotDeeper, IsWs;
    if items != [] {
      assert GrammaticalItem(items[0]);
      DenotedIsGood(items[0].tree, depth + 1);
      ItemsAreGood(items[1..], depth);
    }
  }

  lemma {:induction false} FieldsAreGood(read: seq<Member>, fields: seq<Field>, depth: nat)
    requires (forall i :: 0 <= i < |fields| ==> GrammaticalField(fields[i])) && OutcomeFields(read, fields, depth).Some?
    requires GoodMembers(read, 64 - depth - 1)
    ensures GoodMembers(OutcomeFields(read, fields, depth).value, 64 - depth - 1)
    decreases fields, 2
  {
    hide Outcome, Grammatical, WellFormed, NotDeeper, IsWs, Emplace, SortedKeys, Bytes, AllUnits;
    if fields != [] {
      assert GrammaticalField(fields[0]);
      DenotedIsGood(fields[0].tree, depth + 1);
      var m := Member(Bytes(fields[0].key), Outcome(fields[0].tree, depth + 1).value);
      EmplaceExact(read, m);
      FieldsAreGood(Emplace(read, m).value, fields[1..], depth);
    }
  }

  // ---------------------------------------------------------------- documents

  /** The parser's answer to a printed value: what its tree denotes. */
  lemma PrintedIsRead(v: Value, escape: char -> string)
    requires EscaperContract(escape) && WellFormed(v)
    ensures ParseDocument(Dump(v, escape)) == Outcome(TreeOf(v, escape), 0)
  {
    hide EscaperContract, WellFormed, Dump, TreeOf, TreeOnto, ParseDocument, Outcome, Grammatical;
    TreeOfIsGrammatical(v, escape);
    DumpText(v, escape, "");
    Marks();
    DocumentIsRead("", TreeOf(v, escape), "");
    assert Dump(v, escape) + "" == Dump(v, escape);
    assert "" + TreeOnto(TreeOf(v, escape), "") == TreeOnto(TreeOf(v, escape), "");
  }

  /** A well-formed value survives printing and parsing exactly when its strings hold no NUL byte
    * and it is nested at most 64 deep.  Numbers come back with their text unchanged. */
  lemma DocumentRoundTrip(v: Value, escape: char -> string)
    requires EscaperContract(escape) && WellFormed(v)
    ensures ParseDocument(Dump(v, escape)) == Some(v) <==> AllNulFree(v) && NotDeeper(v, 64)
  {
    hide EscaperContract, WellFormed, AllNulFree, NotDeeper, Dump, TreeOf, ParseDocument, Outcome, Grammatical;
    PrintedIsRead(v, escape);
    PrintedDenotes(v, escape, 0);
    TreeOfIsGrammatical(v, escape);
    if Outcome(TreeOf(v, escape), 0).Some? {
      DenotedIsGood(TreeOf(v, escape), 0);
    }
  }

  /** Whatever a document parses to is well formed and at most 64 deep, so printing it and parsing
    * again gives it back unless a \u0000 escape put a NUL into one of its strings. */
  lemma ParsedDocumentRoundTrip(text: string, escape: char -> string)
    requires EscaperContract(escape) && ParseDocument(text).Some?
    ensures var v := ParseDocument(text).value;
            && WellFormed(v) && NotDeeper(v, 64)
            && (ParseDocument(Dump(v, escape)) == Some(v) <==> AllNulFree(v))
  {
    hide EscaperContract, WellFormed, AllNulFree, NotDeeper, Dump, TreeOnto, ParseDocument, Outcome, Grammatical, IsWs;
    var v := ParseDocument(text).value;
    DocumentIsGrammar(text, v);
    var w: string, t: Tree, after: string :|
      IsWs(w) && Grammatical(t) && IsWs(after) && text == w + TreeOnto(t, after) && Outcome(t, 0) == Some(v);
    DenotedIsGood(t, 0);
    DocumentRoundTrip(v, escape);
  }
}
