/** `stableStringify` of packages/contracts/src/canonical-json.ts, and a reader of RFC 8259 text that inverts it. */
module CanonicalJson {
  import opened Wrappers
  import opened JsonText
  import opened Sorting
  import Delimited

  /**
    JavaScript values as the printer sees them. A finite number is carried by the text it prints as; `NonFinite`
    is NaN or an infinity; objects list their own properties in any order.
   */
  datatype Js =
    | Undefined
    | Null
    | Boolean(b: bool)
    | NonFinite
    | Number(text: Text)
    | String(s: Text)
    | Array(items: seq<Js>)
    | Object(members: seq<Member>)

  datatype Member = Member(key: Text, value: Js)

  /** What a value means once property order and undefined properties are forgotten. */
  datatype Value =
    | VUndefined
    | VNull
    | VBoolean(b: bool)
    | VNumber(text: Text)
    | VString(s: Text)
    | VArray(items: seq<Value>)
    | VObject(fields: map<Text, Value>)

  /** Printed numbers are numerals, and an object has each key once. */
  ghost predicate WellFormed(v: Js) {
    match v
    case Number(text) => IsNumeral(text)
    case Array(items) => forall i :: 0 <= i < |items| ==> WellFormed(items[i])
    case Object(members) =>
      && (forall i :: 0 <= i < |members| ==> WellFormed(members[i].value))
      && (forall i, j :: 0 <= i < j < |members| ==> members[i].key != members[j].key)
    case _ => true
  }

  /** No `undefined` at the root or inside an array; as a property value it is fine. */
  ghost predicate Printable(v: Js) {
    match v
    case Undefined => false
    case Array(items) => forall i :: 0 <= i < |items| ==> Printable(items[i])
    case Object(members) =>
      forall i :: 0 <= i < |members| ==> members[i].value == Undefined || Printable(members[i].value)
    case _ => true
  }

  // ---- printing ----

  const NULL_TEXT: Text := [110, 117, 108, 108]
  const TRUE_TEXT: Text := [116, 114, 117, 101]
  const FALSE_TEXT: Text := [102, 97, 108, 115, 101]

  /** One printed property. */
  datatype Entry = Entry(key: Text, text: Text)

  predicate KeyLe(a: Entry, b: Entry) {
    LexLe(a.key, b.key)
  }

  /** `stableStringify`; `None` where `JSON.stringify` returns undefined instead of a string. */
  function Print(v: Js): (r: Option<Text>)
    ensures r.None? <==> v.Undefined?
  {
    match v
    case Undefined => None
    case Null => Some(NULL_TEXT)
    case Boolean(b) => Some(if b then TRUE_TEXT else FALSE_TEXT)
    case NonFinite => Some(NULL_TEXT)
    case Number(text) => Some(text)
    case String(s) => Some(Quote(s))
    case Array(items) => Some([LBRACKET] + JoinTexts(PrintItems(items)) + [RBRACKET])
    case Object(members) => Some([LBRACE] + JoinEntries(Sort(KeyLe, PrintMembers(members))) + [RBRACE])
  }

  /** `join` writes undefined as the empty text. */
  function PrintItems(items: seq<Js>): (texts: seq<Text>)
    ensures |texts| == |items|
  {
    if items == [] then [] else [Print(items[0]).GetOr([])] + PrintItems(items[1..])
  }

  function PrintMembers(members: seq<Member>): seq<Entry> {
    if members == [] then []
    else
      var m := members[0];
      (if !m.value.Undefined? then [Entry(m.key, Print(m.value).value)] else []) + PrintMembers(members[1..])
  }

  function JoinTexts(texts: seq<Text>): Text {
    if texts == [] then []
    else if |texts| == 1 then texts[0]
    else texts[0] + [COMMA] + JoinTexts(texts[1..])
  }

  function EntryText(e: Entry): Text {
    Quote(e.key) + [COLON] + e.text
  }

  function JoinEntries(entries: seq<Entry>): Text {
    if entries == [] then []
    else if |entries| == 1 then EntryText(entries[0])
    else EntryText(entries[0]) + [COMMA] + JoinEntries(entries[1..])
  }

  // ---- meaning ----

  function Meaning(v: Js): Value {
    match v
    case Undefined => VUndefined
    case Null => VNull
    case Boolean(b) => VBoolean(b)
    case NonFinite => VNull
    case Number(text) => VNumber(text)
    case String(s) => VString(s)
    case Array(items) => VArray(ItemMeanings(items))
    case Object(members) => VObject(MemberMeanings(members))
  }

  function ItemMeanings(items: seq<Js>): (vs: seq<Value>)
    ensures |vs| == |items|
  {
    if items == [] then [] else [Meaning(items[0])] + ItemMeanings(items[1..])
  }

  function MemberMeanings(members: seq<Member>): map<Text, Value> {
    if members == [] then map[]
    else
      var rest := MemberMeanings(members[1..]);
      if members[0].value.Undefined? then rest else rest[members[0].key := Meaning(members[0].value)]
  }

  // ---- reading (RFC 8259, sections 2 to 7) ----

  predicate IsSpace(c: Unit) {
    c == 32 || c == 9 || c == 10 || c == 13
  }

  function SkipSpace(s: Text): (r: Text)
    ensures |r| <= |s|
  {
    if s != [] && IsSpace(s[0]) then SkipSpace(s[1..]) else s
  }

  function ReadLiteral(s: Text, literal: Text, v: Value): (r: Option<Read<Value>>)
    requires literal != []
    ensures r.Some? ==> |r.value.rest| < |s|
  {
    if literal <= s then Some(Read(v, s[|literal|..])) else None
  }

  function ReadValue(s: Text): (r: Option<Read<Value>>)
    ensures r.Some? ==> |r.value.rest| < |s|
    decreases |s|, 1
  {
    if s == [] then None
    else if s[0] == QUOTE then
      var str := ReadString(s);
      if str.Some? then Some(Read(VString(str.value.value), str.value.rest)) else None
    else if s[0] == LBRACKET then
      var inner := SkipSpace(s[1..]);
      if inner != [] && inner[0] == RBRACKET then Some(Read(VArray([]), inner[1..]))
      else
        var items := ReadItems(inner);
        if items.Some? then Some(Read(VArray(items.value.value), items.value.rest)) else None
    else if s[0] == LBRACE then
      var inner := SkipSpace(s[1..]);
      if inner != [] && inner[0] == RBRACE then Some(Read(VObject(map[]), inner[1..]))
      else
        var fields := ReadFields(inner);
        if fields.Some? then Some(Read(VObject(fields.value.value), fields.value.rest)) else None
    else if s[0] == NULL_TEXT[0] then ReadLiteral(s, NULL_TEXT, VNull)
    else if s[0] == TRUE_TEXT[0] then ReadLiteral(s, TRUE_TEXT, VBoolean(true))
    else if s[0] == FALSE_TEXT[0] then ReadLiteral(s, FALSE_TEXT, VBoolean(false))
    else
      var number := ReadNumber(s);
      if number.Some? then Some(Read(VNumber(number.value.value), number.value.rest)) else None
  }

  /** Items up to and with the closing bracket. */
  function ReadItems(s: Text): (r: Option<Read<seq<Value>>>)
    ensures r.Some? ==> |r.value.rest| < |s|
    decreases |s|, 2
  {
    var first := ReadValue(s);
    if first.None? then None
    else
      var after := SkipSpace(first.value.rest);
      if after == [] then None
      else if after[0] == RBRACKET then Some(Read([first.value.value], after[1..]))
      else if after[0] == COMMA then
        var more := ReadItems(SkipSpace(after[1..]));
        if more.Some? then Some(Read([first.value.value] + more.value.value, more.value.rest)) else None
      else None
  }

  /** Fields up to and with the closing brace; a later field of the same name wins, as in `JSON.parse`. */
  function ReadFields(s: Text): (r: Option<Read<map<Text, Value>>>)
    ensures r.Some? ==> |r.value.rest| < |s|
    decreases |s|, 2
  {
    var key := ReadString(s);
    if key.None? then None
    else
      var colon := SkipSpace(key.value.rest);
      if colon == [] || colon[0] != COLON then None
      else
        var value := ReadValue(SkipSpace(colon[1..]));
        if value.None? then None
        else
          var after := SkipSpace(value.value.rest);
          var one := map[key.value.value := value.value.value];
          if after == [] then None
          else if after[0] == RBRACE then Some(Read(one, after[1..]))
          else if after[0] == COMMA then
            var more := ReadFields(SkipSpace(after[1..]));
            if more.Some? then Some(Read(one + more.value.value, more.value.rest)) else None
          else None
  }

  /** A whole JSON text. */
  function Parse(s: Text): Option<Value> {
    var r := ReadValue(SkipSpace(s));
    if r.Some? && SkipSpace(r.value.rest) == [] then Some(r.value.value) else None
  }

  // ---- reading inverts printing ----

  /** `SkipSpace` stops at once at every character that printing puts there. */
  lemma NoSpace(s: Text)
    requires s == [] || !IsSpace(s[0])
    ensures SkipSpace(s) == s
  {
  }

  /** The first character of a printed value: never a space, a closing bracket or brace. */
  predicate StartsValue(s: Text) {
    s != [] && !IsSpace(s[0]) && s[0] != RBRACKET && s[0] != RBRACE
  }

  lemma NoSpaceBefore(s: Text)
    requires StartsValue(s)
    ensures SkipSpace(s) == s
  {
  }

  lemma PrintedStarts(v: Js, rest: Text)
    requires WellFormed(v) && !v.Undefined?
    ensures StartsValue(Print(v).value + rest)
  {
    if v.Number? {
      assert v.text != [];
      hide ScanFraction, ScanExponent, Digits;
    }
  }

  lemma NumeralStarts(text: Text)
    requires IsNumeral(text)
    ensures text != [] && (IsDigit(text[0]) || text[0] == MINUS)
  {
    hide ScanTail, Digits;
  }

  lemma ReadPrintedLiteral(literal: Text, v: Value, rest: Text)
    requires (literal == NULL_TEXT && v == VNull) || (literal == TRUE_TEXT && v == VBoolean(true))
             || (literal == FALSE_TEXT && v == VBoolean(false))
    ensures ReadValue(literal + rest) == Some(Read(v, rest))
  {
    assert (literal + rest)[|literal|..] == rest && literal <= literal + rest;
    hide ReadNumber, ReadString, ReadItems, ReadFields;
  }

  lemma ReadPrintedString(str: Text, rest: Text)
    ensures ReadValue(Quote(str) + rest) == Some(Read(VString(str), rest))
  {
    ReadQuoted(str, rest);
    assert (Quote(str) + rest)[0] == QUOTE;
    hide ReadNumber, ReadString, ReadItems, ReadFields, Quote;
  }

  lemma ReadNumberFirst(s: Text, text: Text, rest: Text)
    requires s != [] && (IsDigit(s[0]) || s[0] == MINUS) && ReadNumber(s) == Some(Read(text, rest))
    ensures ReadValue(s) == Some(Read(VNumber(text), rest))
  {
    hide ReadNumber, ReadString, ReadItems, ReadFields, ReadLiteral, SkipSpace;
  }

  lemma ReadPrintedNumber(text: Text, rest: Text)
    requires IsNumeral(text) && Ends(rest)
    ensures ReadValue(text + rest) == Some(Read(VNumber(text), rest))
  {
    hide ReadValue, ReadNumber, IsNumeral, Ends;
    ReadNumeral(text, rest);
    NumeralStarts(text);
    ReadNumberFirst(text + rest, text, rest);
  }

  lemma ReadPrinted(v: Js, rest: Text)
    requires WellFormed(v) && Printable(v) && Ends(rest)
    ensures ReadValue(Print(v).value + rest) == Some(Read(Meaning(v), rest))
    decreases v, 1, 0
  {
    hide ReadValue;
    match v
    case Null => ReadPrintedLiteral(NULL_TEXT, VNull, rest);
    case NonFinite => ReadPrintedLiteral(NULL_TEXT, VNull, rest);
    case Boolean(b) => ReadPrintedLiteral(if b then TRUE_TEXT else FALSE_TEXT, VBoolean(b), rest);
    case String(str) => ReadPrintedString(str, rest);
    case Number(text) => ReadPrintedNumber(text, rest);
    case Array(items) => ReadPrintedArray(v, rest);
    case Object(members) => ReadPrintedObject(v, rest);
  }

  // ---- arrays ----

  lemma ReadArrayText(inner: Text, items: seq<Value>, rest: Text)
    requires SkipSpace(inner) == inner
    requires if items == [] then inner == [RBRACKET] + rest
             else inner != [] && inner[0] != RBRACKET && ReadItems(inner) == Some(Read(items, rest))
    ensures ReadValue([LBRACKET] + inner) == Some(Read(VArray(items), rest))
  {
    assert ([LBRACKET] + inner)[1..] == inner;
    assert items == [] ==> inner[1..] == rest;
    hide ReadNumber, ReadString, ReadItems, ReadFields, ReadLiteral, SkipSpace;
  }

  lemma ReadLastItem(s: Text, v: Value, rest: Text)
    requires ReadValue(s) == Some(Read(v, [RBRACKET] + rest))
    ensures ReadItems(s) == Some(Read([v], rest))
  {
    NoSpace([RBRACKET] + rest);
    assert ([RBRACKET] + rest)[1..] == rest;
    hide ReadValue, SkipSpace;
  }

  lemma ReadMoreItems(s: Text, v: Value, more: Text, vs: seq<Value>, rest: Text)
    requires ReadValue(s) == Some(Read(v, [COMMA] + more))
    requires SkipSpace(more) == more && ReadItems(more) == Some(Read(vs, rest))
    ensures ReadItems(s) == Some(Read([v] + vs, rest))
  {
    NoSpace([COMMA] + more);
    assert ([COMMA] + more)[1..] == more;
    hide ReadValue, SkipSpace;
  }

  lemma ReadPrintedArray(v: Js, rest: Text)
    requires v.Array? && WellFormed(v) && Printable(v) && Ends(rest)
    ensures ReadValue(Print(v).value + rest) == Some(Read(Meaning(v), rest))
    decreases v, 0, 1
  {
    hide ReadValue, ReadItems;
    var inner := JoinTexts(PrintItems(v.items)) + ([RBRACKET] + rest);
    assert Print(v).value + rest == [LBRACKET] + inner;
    if v.items == [] {
      assert inner == [RBRACKET] + rest;
      NoSpace(inner);
    } else {
      ItemsStart(v.items, [RBRACKET] + rest);
      NoSpace(inner);
      ReadPrintedItems(v, v.items, rest);
    }
    ReadArrayText(inner, ItemMeanings(v.items), rest);
  }

  lemma ItemsStart(items: seq<Js>, rest: Text)
    requires items != [] && WellFormed(items[0]) && Printable(items[0])
    ensures StartsValue(JoinTexts(PrintItems(items)) + rest)
  {
    var first := Print(items[0]).value;
    PrintedStarts(items[0], []);
    assert first + [] == first;
  }

  lemma TextsText(texts: seq<Text>, close: Text)
    requires texts != []
    ensures JoinTexts(texts) + close
         == if |texts| == 1 then texts[0] + close else texts[0] + ([COMMA] + (JoinTexts(texts[1..]) + close))
  {
  }

  lemma ItemsText(items: seq<Js>, close: Text)
    requires items != [] && !items[0].Undefined?
    ensures var s, first := JoinTexts(PrintItems(items)) + close, Print(items[0]).value;
            s == if |items| == 1 then first + close
                 else first + ([COMMA] + (JoinTexts(PrintItems(items[1..])) + close))
  {
    var texts := PrintItems(items);
    assert texts == [Print(items[0]).GetOr([])] + PrintItems(items[1..]);
    assert Print(items[0]).Some?;
    hide Print, PrintItems, JoinTexts;
    TextsText(texts, close);
    assert texts[1..] == PrintItems(items[1..]);
  }

  lemma MeaningsOfItems(items: seq<Js>)
    requires items != []
    ensures ItemMeanings(items) == [Meaning(items[0])] + ItemMeanings(items[1..])
    ensures |items| == 1 ==> ItemMeanings(items) == [Meaning(items[0])]
  {
    hide Meaning;
  }

  lemma EndsBefore(rest: Text)
    ensures Ends([RBRACKET] + rest) && Ends([RBRACE] + rest) && Ends([COMMA] + rest)
  {
  }

  lemma ReadPrintedItems(v: Js, items: seq<Js>, rest: Text)
    requires v.Array? && items != [] && Ends(rest)
    requires forall i :: 0 <= i < |items| ==> items[i] < v && WellFormed(items[i]) && Printable(items[i])
    ensures ReadItems(JoinTexts(PrintItems(items)) + ([RBRACKET] + rest)) == Some(Read(ItemMeanings(items), rest))
    decreases v, 0, 0, |items|
  {
    assert !items[0].Undefined? && WellFormed(items[0]) && Printable(items[0]);
    var close := [RBRACKET] + rest;
    assert |items| > 1 ==> WellFormed(items[1]) && Printable(items[1]);
    hide *;
    ItemsText(items, close);
    MeaningsOfItems(items);
    EndsBefore(rest);
    var s := JoinTexts(PrintItems(items)) + close;
    if |items| == 1 {
      ReadPrinted(items[0], close);
      ReadLastItem(s, Meaning(items[0]), rest);
    } else {
      var more := JoinTexts(PrintItems(items[1..])) + close;
      EndsBefore(more);
      ReadPrinted(items[0], [COMMA] + more);
      ItemsStart(items[1..], close);
      NoSpaceBefore(more);
      ReadPrintedItems(v, items[1..], rest);
      ReadMoreItems(s, Meaning(items[0]), more, ItemMeanings(items[1..]), rest);
    }
  }

  // ---- objects ----

  lemma ReadObjectText(inner: Text, fields: map<Text, Value>, rest: Text)
    requires SkipSpace(inner) == inner
    requires if fields == map[] then inner == [RBRACE] + rest
             else inner != [] && inner[0] != RBRACE && ReadFields(inner) == Some(Read(fields, rest))
    ensures ReadValue([LBRACE] + inner) == Some(Read(VObject(fields), rest))
  {
    assert ([LBRACE] + inner)[1..] == inner;
    assert fields == map[] ==> inner[1..] == rest;
    hide ReadNumber, ReadString, ReadItems, ReadFields, ReadLiteral, SkipSpace;
  }

  /** One printed field up to its value. */
  lemma ReadFieldStart(key: Text, text: Text)
    requires SkipSpace(text) == text
    ensures var s := Quote(key) + [COLON] + text;
            var r := ReadString(s);
            && r == Some(Read(key, [COLON] + text))
            && SkipSpace([COLON] + text) == [COLON] + text
            && SkipSpace(([COLON] + text)[1..]) == text
  {
    ReadQuoted(key, [COLON] + text);
    assert Quote(key) + ([COLON] + text) == Quote(key) + [COLON] + text;
    assert ([COLON] + text)[1..] == text;
    NoSpace([COLON] + text);
    hide ReadString, Quote, SkipSpace;
  }

  lemma ReadLastField(key: Text, text: Text, v: Value, rest: Text)
    requires SkipSpace(text) == text && ReadValue(text) == Some(Read(v, [RBRACE] + rest))
    ensures ReadFields(Quote(key) + [COLON] + text) == Some(Read(map[key := v], rest))
  {
    ReadFieldStart(key, text);
    NoSpace([RBRACE] + rest);
    assert ([RBRACE] + rest)[1..] == rest;
    hide ReadValue, SkipSpace, ReadString, Quote;
  }

  lemma ReadMoreFields(key: Text, text: Text, v: Value, more: Text, fields: map<Text, Value>, rest: Text)
    requires SkipSpace(text) == text && ReadValue(text) == Some(Read(v, [COMMA] + more))
    requires SkipSpace(more) == more && ReadFields(more) == Some(Read(fields, rest))
    ensures ReadFields(Quote(key) + [COLON] + text) == Some(Read(map[key := v] + fields, rest))
  {
    ReadFieldStart(key, text);
    NoSpace([COMMA] + more);
    assert ([COMMA] + more)[1..] == more;
    hide ReadValue, SkipSpace, ReadString, Quote;
  }

  /** `e` is the printed form of some defined member. */
  ghost predicate Prints(members: seq<Member>, e: Entry) {
    exists i :: 0 <= i < |members| && !members[i].value.Undefined? && e == PrintedMember(members[i])
  }

  function PrintedMember(m: Member): Entry
    requires !m.value.Undefined?
  {
    Entry(m.key, Print(m.value).value)
  }

  lemma {:induction false} PrintMembersExactly(members: seq<Member>, e: Entry)
    ensures e in PrintMembers(members) <==> Prints(members, e)
  {
    if members != [] {
      PrintMembersExactly(members[1..], e);
      if Prints(members[1..], e) {
        var i :| 0 <= i < |members| - 1 && !members[1..][i].value.Undefined? && e == PrintedMember(members[1..][i]);
        assert members[i + 1] == members[1..][i];
      }
      if Prints(members, e) {
        var i :| 0 <= i < |members| && !members[i].value.Undefined? && e == PrintedMember(members[i]);
        assert i > 0 ==> members[1..][i - 1] == members[i];
      }
    }
  }

  ghost predicate DistinctKeys(members: seq<Member>) {
    forall i, j :: 0 <= i < j < |members| ==> members[i].key != members[j].key
  }

  lemma {:induction false} MeaningOfMember(members: seq<Member>, i: nat)
    requires DistinctKeys(members) && i < |members|
    ensures members[i].key in MemberMeanings(members) <==> !members[i].value.Undefined?
    ensures !members[i].value.Undefined? ==> MemberMeanings(members)[members[i].key] == Meaning(members[i].value)
  {
    if i == 0 {
      KeysOfMeanings(members[1..]);
    } else {
      assert members[1..][i - 1] == members[i];
      MeaningOfMember(members[1..], i - 1);
    }
  }

  lemma {:induction false} KeysOfMeanings(members: seq<Member>)
    ensures forall k :: k in MemberMeanings(members) ==>
      exists i :: 0 <= i < |members| && members[i].key == k && !members[i].value.Undefined?
  {
    if members != [] {
      KeysOfMeanings(members[1..]);
      forall k | k in MemberMeanings(members)
        ensures exists i :: 0 <= i < |members| && members[i].key == k && !members[i].value.Undefined?
      {
        if k in MemberMeanings(members[1..]) {
          var i :| 0 <= i < |members| - 1 && members[1..][i].key == k && !members[1..][i].value.Undefined?;
          assert members[i + 1].key == k;
        } else {
          assert members[0].key == k;
        }
      }
    }
  }

  function KeysOf(entries: seq<Entry>): set<Text> {
    set e | e in entries :: e.key
  }

  ghost predicate EntriesOf(v: Js, entries: seq<Entry>) {
    v.Object? && forall i :: 0 <= i < |entries| ==> Prints(v.members, entries[i])
  }

  lemma Regroup(key: Text, text: Text, tail: Text, close: Text)
    ensures key + [COLON] + text + close == key + [COLON] + (text + close)
    ensures key + [COLON] + text + [COMMA] + tail + close == key + [COLON] + (text + ([COMMA] + (tail + close)))
  {
  }

  lemma EntriesText(entries: seq<Entry>, close: Text)
    requires entries != []
    ensures var s, e := JoinEntries(entries) + close, entries[0];
            s == if |entries| == 1 then Quote(e.key) + [COLON] + (e.text + close)
                 else Quote(e.key) + [COLON] + (e.text + ([COMMA] + (JoinEntries(entries[1..]) + close)))
  {
    hide Quote;
    var e, tail := entries[0], JoinEntries(entries[1..]);
    assert JoinEntries(entries) == if |entries| == 1 then Quote(e.key) + [COLON] + e.text
                                   else Quote(e.key) + [COLON] + e.text + [COMMA] + tail;
    hide *;
    Regroup(Quote(e.key), e.text, tail, close);
  }

  function Select(all: map<Text, Value>, keys: set<Text>): map<Text, Value>
    requires keys <= all.Keys
  {
    map k | k in keys :: all[k]
  }

  lemma SelectSplit(all: map<Text, Value>, entries: seq<Entry>)
    requires entries != [] && KeysOf(entries) <= all.Keys
    ensures KeysOf(entries[1..]) <= all.Keys && entries[0].key in all
    ensures Select(all, KeysOf(entries)) ==
      map[entries[0].key := all[entries[0].key]] + Select(all, KeysOf(entries[1..]))
    ensures |entries| == 1 ==> Select(all, KeysOf(entries)) == map[entries[0].key := all[entries[0].key]]
  {
    SplitKeys(entries);
    assert |entries| == 1 ==> KeysOf(entries) == {entries[0].key};
  }

  /** The member behind the first entry, with what the object says of it. */
  lemma MemberBehind(v: Js, e: Entry) returns (value: Js)
    requires v.Object? && WellFormed(v) && Printable(v) && Prints(v.members, e)
    ensures value < v && WellFormed(value) && Printable(value) && Print(value) == Some(e.text)
    ensures e.key in MemberMeanings(v.members) && MemberMeanings(v.members)[e.key] == Meaning(value)
  {
    var i :| 0 <= i < |v.members| && !v.members[i].value.Undefined? && e == PrintedMember(v.members[i]);
    value := v.members[i].value;
    MeaningOfMember(v.members, i);
    hide Print, Meaning, MemberMeanings;
  }

  /** The fields read back from printed entries are the meanings of the members they print. */
  lemma ReadPrintedEntries(v: Js, entries: seq<Entry>, rest: Text)
    requires v.Object? && WellFormed(v) && Printable(v) && entries != [] && EntriesOf(v, entries) && Ends(rest)
    requires KeysOf(entries) <= MemberMeanings(v.members).Keys
    ensures ReadFields(JoinEntries(entries) + ([RBRACE] + rest))
         == Some(Read(Select(MemberMeanings(v.members), KeysOf(entries)), rest))
    decreases v, 0, 0, |entries|
  {
    var e, close, all := entries[0], [RBRACE] + rest, MemberMeanings(v.members);
    assert Prints(v.members, e);
    assert forall s: Text :: StartsValue(s) ==> SkipSpace(s) == s;
    assert EntriesOf(v, entries[1..]);
    hide *;
    var value := MemberBehind(v, e);
    EndsBefore(rest);
    EntriesText(entries, close);
    SelectSplit(all, entries);
    if |entries| == 1 {
      ReadPrinted(value, close);
      PrintedStarts(value, close);
      ReadLastField(e.key, e.text + close, all[e.key], rest);
    } else {
      var more := JoinEntries(entries[1..]) + close;
      EndsBefore(more);
      ReadPrinted(value, [COMMA] + more);
      PrintedStarts(value, [COMMA] + more);
      EntriesStart(entries[1..], close);
      ReadPrintedEntries(v, entries[1..], rest);
      ReadMoreFields(e.key, e.text + ([COMMA] + more), all[e.key], more, Select(all, KeysOf(entries[1..])), rest);
    }
  }

  lemma SplitKeys(entries: seq<Entry>)
    requires entries != []
    ensures KeysOf(entries) == {entries[0].key} + KeysOf(entries[1..])
  {
    assert entries == [entries[0]] + entries[1..];
    forall k | k in KeysOf(entries)
      ensures k in {entries[0].key} + KeysOf(entries[1..])
    {
      var e :| e in entries && e.key == k;
      assert e == entries[0] || e in entries[1..];
    }
  }

  lemma EntriesStart(entries: seq<Entry>, rest: Text)
    requires entries != []
    ensures StartsValue(JoinEntries(entries) + rest) && (JoinEntries(entries) + rest)[0] == QUOTE
  {
    assert EntryText(entries[0])[0] == QUOTE;
  }

  lemma PrintedObject(v: Js, rest: Text)
    requires v.Object?
    ensures Print(v).value + rest == [LBRACE] + (JoinEntries(Sort(KeyLe, PrintMembers(v.members))) + ([RBRACE] + rest))
    ensures Meaning(v) == VObject(MemberMeanings(v.members))
  {
    hide Sort, PrintMembers, MemberMeanings, JoinEntries;
  }

  lemma ReadPrintedObject(v: Js, rest: Text)
    requires v.Object? && WellFormed(v) && Printable(v) && Ends(rest)
    ensures ReadValue(Print(v).value + rest) == Some(Read(Meaning(v), rest))
    decreases v, 0, 1
  {
    var entries, close := Sort(KeyLe, PrintMembers(v.members)), [RBRACE] + rest;
    var fields, inner := MemberMeanings(v.members), JoinEntries(entries) + close;
    SortedEntries(v.members);
    assert EntriesOf(v, entries);
    PrintedObject(v, rest);
    assert entries == [] ==> inner == close && SkipSpace(close) == close && KeysOf(entries) == {};
    assert entries != [] ==> entries[0].key in KeysOf(entries);
    assert Select(fields, KeysOf(entries)) == fields;
    hide *;
    if entries != [] {
      EntriesStart(entries, close);
      StartsUnskipped(inner);
      ReadPrintedEntries(v, entries, rest);
    }
    ReadObjectText(inner, fields, rest);
  }

  /**
    An object prints as its defined properties, each once, quoted key, colon and value, joined by commas between braces,
    and their keys ascend strictly by code unit: of two keys the earlier has the smaller unit where they first differ,
    or ends there.
   */
  lemma ObjectPrintsAscending(v: Js) returns (entries: seq<Entry>)
    requires v.Object? && WellFormed(v)
    ensures Print(v) == Some([123] + Delimited.Join(44, EntryTexts(entries)) + [125])
    ensures forall i, j :: 0 <= i < j < |entries| ==> Precedes(entries[i].key, entries[j].key)
    ensures forall e :: e in entries <==> Prints(v.members, e)
  {
    var printed := PrintMembers(v.members);
    entries := Sort(KeyLe, printed);
    assert DistinctKeys(v.members);
    PrintedKeysDistinct(v.members);
    JoinedEntries(entries);
    SortKeepsDistinct(printed);
    KeyLeIsPreorder();
    SortSorts(KeyLe, printed);
    forall i, j | 0 <= i < j < |entries|
      ensures Precedes(entries[i].key, entries[j].key)
    {
      assert KeyLe(entries[i], entries[j]);
      LexExactly(entries[i].key, entries[j].key);
    }
    forall e
      ensures e in entries <==> Prints(v.members, e)
    {
      MemberOfSort(KeyLe, printed, e);
      PrintMembersExactly(v.members, e);
    }
    hide Sort, PrintMembers, JoinEntries, Precedes, LexLe, Prints, WellFormed;
  }

  lemma {:induction false} JoinedTexts(texts: seq<Text>)
    ensures JoinTexts(texts) == Delimited.Join(44, texts)
  {
    if |texts| > 1 {
      JoinedTexts(texts[1..]);
    }
  }

  function EntryTexts(entries: seq<Entry>): (texts: seq<Text>)
    ensures |texts| == |entries|
    ensures forall i :: 0 <= i < |entries| ==> texts[i] == Quote(entries[i].key) + [58] + entries[i].text
  {
    if entries == [] then []
    else [Quote(entries[0].key) + [58] + entries[0].text] + EntryTexts(entries[1..])
  }

  lemma {:induction false} JoinedEntries(entries: seq<Entry>)
    ensures JoinEntries(entries) == Delimited.Join(44, EntryTexts(entries))
  {
    if |entries| > 1 {
      JoinedEntries(entries[1..]);
      assert EntryTexts(entries)[1..] == EntryTexts(entries[1..]);
    }
  }

  /** An array is its items between brackets, joined by commas with nothing else between; what has no text is empty. */
  lemma ArrayPrintsItems(v: Js) returns (texts: seq<Text>)
    requires v.Array?
    ensures Print(v) == Some([91] + Delimited.Join(44, texts) + [93]) && |texts| == |v.items|
    ensures forall i :: 0 <= i < |texts| ==> texts[i] == if v.items[i].Undefined? then [] else Print(v.items[i]).value
  {
    texts := PrintItems(v.items);
    JoinedTexts(texts);
    ItemTexts(v.items);
  }

  lemma {:induction false} ItemTexts(items: seq<Js>)
    ensures forall i :: 0 <= i < |items| ==> PrintItems(items)[i] == Print(items[i]).GetOr([])
  {
    if items != [] {
      ItemTexts(items[1..]);
      assert forall i :: 0 < i < |items| ==> items[i] == items[1..][i - 1];
      assert forall i :: 0 < i < |items| ==> PrintItems(items)[i] == PrintItems(items[1..])[i - 1];
    }
    hide Print;
  }

  lemma StartsUnskipped(s: Text)
    requires StartsValue(s)
    ensures SkipSpace(s) == s
  {
  }

  lemma SortedEntries(members: seq<Member>)
    requires DistinctKeys(members)
    ensures KeysOf(Sort(KeyLe, PrintMembers(members))) == MemberMeanings(members).Keys
    ensures forall i :: 0 <= i < |Sort(KeyLe, PrintMembers(members))| ==>
      Prints(members, Sort(KeyLe, PrintMembers(members))[i])
  {
    var entries := Sort(KeyLe, PrintMembers(members));
    forall e
      ensures e in entries <==> Prints(members, e)
    {
      MemberOfSort(KeyLe, PrintMembers(members), e);
      PrintMembersExactly(members, e);
    }
    forall i | 0 <= i < |entries|
      ensures Prints(members, entries[i])
    {
      assert entries[i] in entries;
    }
    KeysOfMeanings(members);
    forall k
      ensures k in KeysOf(entries) <==> k in MemberMeanings(members)
    {
      if k in KeysOf(entries) {
        var e :| e in entries && e.key == k;
        var i :| 0 <= i < |members| && !members[i].value.Undefined? && e == PrintedMember(members[i]);
        MeaningOfMember(members, i);
      }
      if k in MemberMeanings(members) {
        var i :| 0 <= i < |members| && members[i].key == k && !members[i].value.Undefined?;
        assert Prints(members, PrintedMember(members[i]));
        assert PrintedMember(members[i]) in entries;
      }
    }
  }

  // ---- values of equal meaning print equally ----

  ghost predicate DistinctEntries(entries: seq<Entry>) {
    forall i, j :: 0 <= i < j < |entries| ==> entries[i].key != entries[j].key
  }

  lemma KeyLeIsPreorder()
    ensures TotalPreorder(KeyLe)
  {
    forall x: Entry, y: Entry
      ensures KeyLe(x, y) || KeyLe(y, x)
    {
      LexTotal(x.key, y.key);
    }
    forall x: Entry, y: Entry, z: Entry | KeyLe(x, y) && KeyLe(y, z)
      ensures KeyLe(x, z)
    {
      LexTransitive(x.key, y.key, z.key);
    }
  }

  /** With distinct keys there is one sorted arrangement, whichever sort produced it. */
  lemma {:induction false} SortedEntriesUnique(s: seq<Entry>, t: seq<Entry>)
    requires Sorted(KeyLe, s) && Sorted(KeyLe, t) && DistinctEntries(s) && DistinctEntries(t)
    requires forall e :: e in s <==> e in t
    ensures s == t
  {
    if s == [] {
      if t != [] {
        HasMember(t);
      }
    } else {
      assert s[0] in t && t != [] && t[0] in s;
      LeastEntry(s, t);
      assert forall e :: e in s[1..] <==> e in s && e != s[0] by { RestOf(s); }
      assert forall e :: e in t[1..] <==> e in t && e != t[0] by { RestOf(t); }
      SortedEntriesUnique(s[1..], t[1..]);
      assert s == [s[0]] + s[1..] && t == [t[0]] + t[1..];
    }
  }

  lemma HasMember(s: seq<Entry>)
    requires s != []
    ensures exists e :: e in s
  {
    assert s[0] in s;
  }

  lemma RestOf(s: seq<Entry>)
    requires s != [] && DistinctEntries(s)
    ensures forall e :: e in s[1..] <==> e in s && e != s[0]
  {
    assert s == [s[0]] + s[1..];
  }

  lemma LeastEntry(s: seq<Entry>, t: seq<Entry>)
    requires Sorted(KeyLe, s) && Sorted(KeyLe, t) && DistinctEntries(t)
    requires s != [] && t != [] && s[0] in t && t[0] in s
    ensures s[0] == t[0]
  {
    var i :| 0 <= i < |t| && t[i] == s[0];
    var j :| 0 <= j < |s| && s[j] == t[0];
    LexTotal(s[0].key, t[0].key);
    assert i > 0 ==> KeyLe(t[0], t[i]);
    assert j > 0 ==> KeyLe(s[0], s[j]);
    LexAntisymmetricIf(s[0].key, t[0].key);
  }

  lemma LexAntisymmetricIf(a: Text, b: Text)
    ensures LexLe(a, b) && LexLe(b, a) ==> a == b
  {
    if LexLe(a, b) && LexLe(b, a) {
      LexAntisymmetric(a, b);
    }
  }

  lemma {:induction false} PrintedKeysDistinct(members: seq<Member>)
    requires DistinctKeys(members)
    ensures DistinctEntries(PrintMembers(members))
  {
    if members != [] {
      PrintedKeysDistinct(members[1..]);
      var rest := PrintMembers(members[1..]);
      forall i | 0 <= i < |rest|
        ensures rest[i].key != members[0].key
      {
        PrintMembersExactly(members[1..], rest[i]);
        assert rest[i] in rest;
        var j :| 0 <= j < |members| - 1 && !members[1..][j].value.Undefined? &&
          rest[i] == PrintedMember(members[1..][j]);
        assert members[1..][j] == members[j + 1];
      }
    }
  }

  lemma SortKeepsDistinct(entries: seq<Entry>)
    requires DistinctEntries(entries)
    ensures DistinctEntries(Sort(KeyLe, entries))
  {
    var sorted := Sort(KeyLe, entries);
    forall i, j | 0 <= i < j < |sorted|
      ensures sorted[i].key != sorted[j].key
    {
      SortPermutes(KeyLe, entries);
      if sorted[i] == sorted[j] {
        TwiceCounts(sorted, i, j);
        DistinctCounts(entries, sorted[i]);
      } else {
        MemberOfSort(KeyLe, entries, sorted[i]);
        MemberOfSort(KeyLe, entries, sorted[j]);
      }
    }
  }

  lemma TwiceCounts(s: seq<Entry>, i: nat, j: nat)
    requires i < j < |s| && s[i] == s[j]
    ensures multiset(s)[s[i]] >= 2
  {
    assert s == s[..i] + [s[i]] + s[i + 1..j] + [s[j]] + s[j + 1..];
  }

  lemma {:induction false} DistinctCounts(s: seq<Entry>, e: Entry)
    requires DistinctEntries(s)
    ensures multiset(s)[e] <= 1
  {
    if s != [] {
      DistinctCounts(s[1..], e);
      assert s == [s[0]] + s[1..];
      RestOf(s);
    }
  }

  /** Objects with the same fields print the same entries, whatever the order of their members. */
  lemma SameEntries(a: Js, b: Js, e: Entry)
    requires a.Object? && b.Object? && WellFormed(a) && WellFormed(b) && Printable(a) && Printable(b)
    requires MemberMeanings(a.members) == MemberMeanings(b.members)
    requires e in PrintMembers(a.members)
    ensures e in PrintMembers(b.members)
    decreases a, 0
  {
    PrintMembersExactly(a.members, e);
    var i :| 0 <= i < |a.members| && !a.members[i].value.Undefined? && e == PrintedMember(a.members[i]);
    MeaningOfMember(a.members, i);
    KeysOfMeanings(b.members);
    var j :| 0 <= j < |b.members| && b.members[j].key == e.key && !b.members[j].value.Undefined?;
    MeaningOfMember(b.members, j);
    SameMeaningPrintsSame(a.members[i].value, b.members[j].value);
    assert e == PrintedMember(b.members[j]);
    PrintMembersExactly(b.members, e);
  }

  lemma {:induction false} SameItems(v: Js, s: seq<Js>, t: seq<Js>)
    requires forall i :: 0 <= i < |s| ==> s[i] < v && WellFormed(s[i]) && Printable(s[i])
    requires forall i :: 0 <= i < |t| ==> WellFormed(t[i]) && Printable(t[i])
    requires ItemMeanings(s) == ItemMeanings(t)
    ensures PrintItems(s) == PrintItems(t)
    decreases v, 0, |s|
  {
    if s != [] {
      assert ItemMeanings(s)[0] == ItemMeanings(t)[0];
      assert ItemMeanings(s)[1..] == ItemMeanings(s[1..]);
      assert ItemMeanings(t)[1..] == ItemMeanings(t[1..]);
      SameMeaningPrintsSame(s[0], t[0]);
      SameItems(v, s[1..], t[1..]);
    }
  }

  lemma {:induction false} SameMeaningPrintsSame(a: Js, b: Js)
    requires WellFormed(a) && WellFormed(b) && Printable(a) && Printable(b)
    requires Meaning(a) == Meaning(b)
    ensures Print(a) == Print(b)
    decreases a, 1
  {
    match a
    case Array(items) => SameItems(a, items, b.items);
    case Object(members) =>
      var s, t := Sort(KeyLe, PrintMembers(a.members)), Sort(KeyLe, PrintMembers(b.members));
      forall e
        ensures e in s <==> e in t
      {
        MemberOfSort(KeyLe, PrintMembers(a.members), e);
        MemberOfSort(KeyLe, PrintMembers(b.members), e);
        if e in PrintMembers(a.members) { SameEntries(a, b, e); }
        if e in PrintMembers(b.members) { SameEntriesBack(a, b, e); }
      }
      PrintedKeysDistinct(a.members);
      PrintedKeysDistinct(b.members);
      SortKeepsDistinct(PrintMembers(a.members));
      SortKeepsDistinct(PrintMembers(b.members));
      KeyLeIsPreorder();
      SortSorts(KeyLe, PrintMembers(a.members));
      SortSorts(KeyLe, PrintMembers(b.members));
      SortedEntriesUnique(s, t);
    case _ =>
  }

  lemma SameEntriesBack(a: Js, b: Js, e: Entry)
    requires a.Object? && b.Object? && WellFormed(a) && WellFormed(b) && Printable(a) && Printable(b)
    requires MemberMeanings(a.members) == MemberMeanings(b.members)
    requires e in PrintMembers(b.members)
    ensures e in PrintMembers(a.members)
    decreases a, 0
  {
    PrintMembersExactly(b.members, e);
    var j :| 0 <= j < |b.members| && !b.members[j].value.Undefined? && e == PrintedMember(b.members[j]);
    MeaningOfMember(b.members, j);
    KeysOfMeanings(a.members);
    var i :| 0 <= i < |a.members| && a.members[i].key == e.key && !a.members[i].value.Undefined?;
    MeaningOfMember(a.members, i);
    SameMeaningPrintsSame(a.members[i].value, b.members[j].value);
    assert e == PrintedMember(a.members[i]);
    PrintMembersExactly(a.members, e);
  }

  // ---- main results ----

  /** The printed text is uniquely readable: an RFC 8259 reader recovers the value it means. */
  lemma ParseInvertsPrint(v: Js)
    requires WellFormed(v) && Printable(v)
    ensures Print(v).Some? && Parse(Print(v).value) == Some(Meaning(v))
  {
    assert !v.Undefined?;
    var s := Print(v).value;
    assert s + [] == s;
    ReadPrinted(v, []);
    PrintedStarts(v, []);
    NoSpaceBefore(s);
    hide ReadValue, Print, Meaning;
  }

  /** Two values print equally exactly when they mean the same. */
  lemma PrintsEqualExactlyWhenSameMeaning(a: Js, b: Js)
    requires WellFormed(a) && WellFormed(b) && Printable(a) && Printable(b)
    ensures Print(a) == Print(b) <==> Meaning(a) == Meaning(b)
  {
    ParseInvertsPrint(a);
    ParseInvertsPrint(b);
    if Meaning(a) == Meaning(b) {
      SameMeaningPrintsSame(a, b);
    }
    hide Parse, Meaning, Print;
  }

  /** Nowhere undefined, which every value read from text is. */
  ghost predicate Defined(v: Value) {
    match v
    case VUndefined => false
    case VArray(items) => forall i :: 0 <= i < |items| ==> Defined(items[i])
    case VObject(fields) => forall k :: k in fields ==> Defined(fields[k])
    case _ => true
  }

  lemma {:induction false} ReadValueDefined(s: Text)
    ensures ReadValue(s).Some? ==> Defined(ReadValue(s).value.value)
    decreases |s|, 1
  {
    if s != [] && s[0] == LBRACKET {
      var inner := SkipSpace(s[1..]);
      ReadItemsDefined(inner);
      hide ReadItems, ReadFields, ReadNumber, ReadString, ReadLiteral;
    } else if s != [] && s[0] == LBRACE {
      var inner := SkipSpace(s[1..]);
      ReadFieldsDefined(inner);
      hide ReadItems, ReadFields, ReadNumber, ReadString, ReadLiteral;
    } else {
      hide ReadItems, ReadFields, ReadNumber, ReadString;
    }
  }

  lemma {:induction false} ReadItemsDefined(s: Text)
    ensures ReadItems(s).Some? ==> forall i :: 0 <= i < |ReadItems(s).value.value| ==>
      Defined(ReadItems(s).value.value[i])
    decreases |s|, 2
  {
    ReadValueDefined(s);
    if ReadValue(s).Some? {
      var after := SkipSpace(ReadValue(s).value.rest);
      if after != [] && after[0] == COMMA {
        ReadItemsDefined(SkipSpace(after[1..]));
      }
    }
    hide ReadValue;
  }

  lemma {:induction false} ReadFieldsDefined(s: Text)
    ensures ReadFields(s).Some? ==> forall k :: k in ReadFields(s).value.value ==> Defined(ReadFields(s).value.value[k])
    decreases |s|, 2
  {
    var key := ReadString(s);
    if key.Some? {
      var colon := SkipSpace(key.value.rest);
      if colon != [] && colon[0] == COLON {
        var text := SkipSpace(colon[1..]);
        ReadValueDefined(text);
        if ReadValue(text).Some? {
          var after := SkipSpace(ReadValue(text).value.rest);
          if after != [] && after[0] == COMMA {
            ReadFieldsDefined(SkipSpace(after[1..]));
          }
        }
      }
    }
    hide ReadValue, ReadString;
  }

  lemma {:induction false} ItemMeaningAt(items: seq<Js>, i: nat)
    requires i < |items|
    ensures ItemMeanings(items)[i] == Meaning(items[i])
  {
    if i > 0 {
      ItemMeaningAt(items[1..], i - 1);
    }
  }

  /** What is not printable has an `undefined` left in its meaning. */
  lemma {:induction false} PrintableMeansDefined(v: Js)
    requires WellFormed(v)
    ensures Printable(v) <==> Defined(Meaning(v))
    decreases v
  {
    match v
    case Array(items) =>
      forall i | 0 <= i < |items|
        ensures Printable(items[i]) <==> Defined(ItemMeanings(items)[i])
      {
        PrintableMeansDefined(items[i]);
        ItemMeaningAt(items, i);
      }
    case Object(members) =>
      forall i | 0 <= i < |members| && !members[i].value.Undefined?
        ensures members[i].key in MemberMeanings(members)
        ensures Printable(members[i].value) <==> Defined(MemberMeanings(members)[members[i].key])
      {
        PrintableMeansDefined(members[i].value);
        MeaningOfMember(members, i);
      }
      KeysOfMeanings(members);
    case _ =>
  }

  /** Reading the printed text gives the value's meaning exactly for printable values. */
  lemma UniquelyReadableExactlyWhenPrintable(v: Js)
    requires WellFormed(v)
    ensures (Print(v).Some? && Parse(Print(v).value) == Some(Meaning(v))) <==> Printable(v)
  {
    if Printable(v) {
      ParseInvertsPrint(v);
    } else if Print(v).Some? {
      ReadValueDefined(SkipSpace(Print(v).value));
      PrintableMeansDefined(v);
    }
    hide ReadValue, Print, Meaning, Defined;
  }

  /** With `undefined` in an array two different values share a text, and another text is not JSON at all. */
  lemma UndefinedInArraysCollides()
    ensures Print(Array([Undefined])) == Print(Array([])) && Meaning(Array([Undefined])) != Meaning(Array([]))
    ensures Print(Array([Undefined, Undefined])) == Some([LBRACKET, COMMA, RBRACKET])
    ensures Parse([LBRACKET, COMMA, RBRACKET]) == None
  {
    assert PrintItems([Undefined]) == [[]];
    assert PrintItems([Undefined, Undefined]) == [[], []] by {
      assert [Undefined, Undefined][1..] == [Undefined];
    }
    var empties: seq<Text> := [[], []];
    assert JoinTexts(empties) == [COMMA] by {
      assert empties[1..] == [[]];
    }
    var s: Text := [LBRACKET, COMMA, RBRACKET];
    assert [LBRACKET] + [COMMA] + [RBRACKET] == s;
    assert PrintItems([Undefined, Undefined]) == empties;
    assert s[1..] == [COMMA, RBRACKET];
    assert ReadItems([COMMA, RBRACKET]) == None by {
      assert ReadValue([COMMA, RBRACKET]) == None;
    }
  }
}
