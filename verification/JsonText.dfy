/** Strings and numbers in JSON text: how `JSON.stringify` writes them and how RFC 8259 reads them. */
module JsonText {
  import opened Wrappers

  /** UTF-16 code units, which JavaScript strings are made of. */
  type Unit = x: int | 0 <= x < 0x1_0000
  type Text = seq<Unit>

  const QUOTE: Unit := 34
  const BACKSLASH: Unit := 92
  const COMMA: Unit := 44
  const COLON: Unit := 58
  const LBRACKET: Unit := 91
  const RBRACKET: Unit := 93
  const LBRACE: Unit := 123
  const RBRACE: Unit := 125
  const MINUS: Unit := 45
  const PLUS: Unit := 43
  const POINT: Unit := 46
  const ZERO: Unit := 48

  datatype Read<+T> = Read(value: T, rest: Text)

  // ---- the order of property names ----

  /** `a <= b` for JavaScript strings: code unit by code unit. */
  predicate LexLe(a: Text, b: Text) {
    a == [] || (b != [] && (a[0] < b[0] || (a[0] == b[0] && LexLe(a[1..], b[1..]))))
  }

  lemma {:induction false} LexTotal(a: Text, b: Text)
    ensures LexLe(a, b) || LexLe(b, a)
  {
    if a != [] && b != [] {
      LexTotal(a[1..], b[1..]);
    }
  }

  lemma {:induction false} LexTransitive(a: Text, b: Text, c: Text)
    requires LexLe(a, b) && LexLe(b, c)
    ensures LexLe(a, c)
  {
    if a != [] && a[0] == b[0] == c[0] {
      LexTransitive(a[1..], b[1..], c[1..]);
    }
  }

  lemma {:induction false} LexAntisymmetric(a: Text, b: Text)
    requires LexLe(a, b) && LexLe(b, a)
    ensures a == b
  {
    if a != [] {
      LexAntisymmetric(a[1..], b[1..]);
    }
  }

  /** At the first place where they differ `a` has the smaller code unit, or ends. */
  ghost predicate Precedes(a: Text, b: Text) {
    exists n: nat :: DiffersAt(a, b, n) && (n == |a| || a[n] < b[n])
  }

  /** The texts agree before place `n`, and `b` goes on there. */
  predicate DiffersAt(a: Text, b: Text, n: nat) {
    n <= |a| && n < |b| && forall k :: 0 <= k < n ==> a[k] == b[k]
  }

  /** The order is the one of the first place that differs. */
  lemma {:induction false} LexExactly(a: Text, b: Text)
    ensures LexLe(a, b) <==> a == b || Precedes(a, b)
  {
    if a != [] && b != [] && a[0] == b[0] {
      LexExactly(a[1..], b[1..]);
      assert a == [a[0]] + a[1..] && b == [b[0]] + b[1..];
      TailPrecedes(a, b);
    } else if b != [] && LexLe(a, b) {
      assert DiffersAt(a, b, 0);
    } else {
      assert forall n: nat :: DiffersAt(a, b, n) ==> n == 0 || (a != [] && a[0] == b[0]);
    }
  }

  lemma TailPrecedes(a: Text, b: Text)
    requires a != [] && b != [] && a[0] == b[0]
    ensures Precedes(a, b) <==> Precedes(a[1..], b[1..])
  {
    if n: nat :| DiffersAt(a, b, n) && (n == |a| || a[n] < b[n]) {
      assert n > 0 && DiffersAt(a[1..], b[1..], n - 1);
    }
    if n: nat :| DiffersAt(a[1..], b[1..], n) && (n == |a[1..]| || a[1..][n] < b[1..][n]) {
      forall k | 0 <= k < n + 1
        ensures a[k] == b[k]
      {
        assert k > 0 ==> a[k] == a[1..][k - 1] && b[k] == b[1..][k - 1];
      }
      assert DiffersAt(a, b, n + 1);
    }
  }

  // ---- quoting ----

  predicate IsLead(c: Unit) { 0xD800 <= c < 0xDC00 }
  predicate IsTrail(c: Unit) { 0xDC00 <= c < 0xE000 }

  function HexUnit(d: nat): (c: Unit)
    requires d < 16
    ensures HexDigit(c) == Some(d)
  {
    if d < 10 then 48 + d else 87 + d
  }

  /** The value of a hexadecimal digit in either case. */
  function HexDigit(c: Unit): Option<nat> {
    if 48 <= c <= 57 then Some(c - 48)
    else if 97 <= c <= 102 then Some(c - 87)
    else if 65 <= c <= 70 then Some(c - 55)
    else None
  }

  function UnicodeEscape(c: Unit): Text {
    var h := c / 16;
    var hh := h / 16;
    [BACKSLASH, 117, HexUnit(hh / 16), HexUnit(hh % 16), HexUnit(h % 16), HexUnit(c % 16)]
  }

  /** The letter after the backslash of a short escape. */
  function ShortEscape(c: Unit): Option<Unit> {
    if c == 8 then Some(98)
    else if c == 9 then Some(116)
    else if c == 10 then Some(110)
    else if c == 12 then Some(102)
    else if c == 13 then Some(114)
    else if c == QUOTE || c == BACKSLASH then Some(c)
    else None
  }

  function EscapeUnit(c: Unit): Text {
    if ShortEscape(c).Some? then [BACKSLASH, ShortEscape(c).value]
    else if c < 32 || IsLead(c) || IsTrail(c) then UnicodeEscape(c)
    else [c]
  }

  /** Surrogate pairs stay; a lone surrogate is escaped. */
  function Escape(s: Text): Text {
    if s == [] then []
    else if |s| > 1 && IsLead(s[0]) && IsTrail(s[1]) then [s[0], s[1]] + Escape(s[2..])
    else EscapeUnit(s[0]) + Escape(s[1..])
  }

  function Quote(s: Text): Text {
    [QUOTE] + Escape(s) + [QUOTE]
  }

  /** Half of a surrogate pair without the other half. */
  predicate IsLone(s: Text, i: nat)
    requires i < |s|
  {
    || (IsLead(s[i]) && !(i + 1 < |s| && IsTrail(s[i + 1])))
    || (IsTrail(s[i]) && !(i > 0 && IsLead(s[i - 1])))
  }

  predicate IsLowerHexUnit(c: Unit) {
    48 <= c <= 57 || 97 <= c <= 102
  }

  /** Itself; or a backslash and one letter; or, for other controls and lone surrogates, its four lower-case digits. */
  predicate IsPiece(c: Unit, lone: bool, t: Text) {
    if c == 34 || c == 92 then t == [92, c]
    else if c == 8 then t == [92, 98]
    else if c == 9 then t == [92, 116]
    else if c == 10 then t == [92, 110]
    else if c == 12 then t == [92, 102]
    else if c == 13 then t == [92, 114]
    else if c < 32 || lone then
      && |t| == 6 && t[0] == 92 && t[1] == 117 && ReadHex4(t[2..6]) == Some(c)
      && forall k :: 2 <= k < 6 ==> IsLowerHexUnit(t[k])
    else t == [c]
  }

  function Flatten(pieces: seq<Text>): Text {
    if pieces == [] then [] else pieces[0] + Flatten(pieces[1..])
  }

  lemma HexPiece(c: Unit)
    ensures var t := UnicodeEscape(c);
      && |t| == 6 && t[0] == 92 && t[1] == 117 && ReadHex4(t[2..6]) == Some(c)
      && forall k :: 2 <= k < 6 ==> IsLowerHexUnit(t[k])
  {
    HexOfUnit(c);
  }

  lemma LoneLater(s: Text, n: nat, i: nat)
    requires 0 < n <= i < |s| && (i == n ==> !(IsLead(s[n - 1]) && IsTrail(s[n])))
    ensures s[i] == s[n..][i - n] && IsLone(s, i) == IsLone(s[n..], i - n)
  {
  }

  lemma FirstPiece(s: Text)
    requires s != [] && !(|s| > 1 && IsLead(s[0]) && IsTrail(s[1]))
    ensures IsPiece(s[0], IsLone(s, 0), EscapeUnit(s[0]))
  {
    HexPiece(s[0]);
    hide UnicodeEscape, ReadHex4, IsLowerHexUnit;
  }

  lemma PairPieces(s: Text)
    requires |s| > 1 && IsLead(s[0]) && IsTrail(s[1])
    ensures IsPiece(s[0], IsLone(s, 0), [s[0]]) && IsPiece(s[1], IsLone(s, 1), [s[1]])
  {
  }

  /** A string is quoted unit by unit: every unit that must be escaped is, in the one form for it, and no other. */
  lemma {:induction false} QuotedUnits(s: Text) returns (pieces: seq<Text>)
    ensures |pieces| == |s| && Escape(s) == Flatten(pieces) && Quote(s) == [34] + Flatten(pieces) + [34]
    ensures forall i :: 0 <= i < |s| ==> IsPiece(s[i], IsLone(s, i), pieces[i])
  {
    hide IsPiece, IsLone, EscapeUnit;
    if s == [] {
      pieces := [];
    } else if |s| > 1 && IsLead(s[0]) && IsTrail(s[1]) {
      var rest := QuotedUnits(s[2..]);
      pieces := [[s[0]], [s[1]]] + rest;
      assert pieces[1..] == [[s[1]]] + rest && pieces[1..][1..] == rest;
      assert [s[0]] + ([s[1]] + Flatten(rest)) == [s[0], s[1]] + Flatten(rest);
      PairPieces(s);
      forall i | 2 <= i < |s|
        ensures IsPiece(s[i], IsLone(s, i), pieces[i])
      {
        LoneLater(s, 2, i);
      }
    } else {
      var rest := QuotedUnits(s[1..]);
      pieces := [EscapeUnit(s[0])] + rest;
      assert pieces[1..] == rest;
      FirstPiece(s);
      forall i | 1 <= i < |s|
        ensures IsPiece(s[i], IsLone(s, i), pieces[i])
      {
        LoneLater(s, 1, i);
      }
    }
  }

  /** What a short escape stands for when read; `\/` is read too. */
  function Unescape(c: Unit): Option<Unit> {
    if c == 98 then Some(8)
    else if c == 116 then Some(9)
    else if c == 110 then Some(10)
    else if c == 102 then Some(12)
    else if c == 114 then Some(13)
    else if c == QUOTE || c == BACKSLASH || c == 47 then Some(c)
    else None
  }

  function ReadHex4(s: Text): Option<Unit>
    requires |s| >= 4
  {
    var a, b, c, d := HexDigit(s[0]), HexDigit(s[1]), HexDigit(s[2]), HexDigit(s[3]);
    if a.Some? && b.Some? && c.Some? && d.Some?
    then Some(a.value * 0x1000 + b.value * 0x100 + c.value * 16 + d.value) else None
  }

  function Prepend(c: Unit, r: Option<Read<Text>>): Option<Read<Text>> {
    if r.Some? then Some(Read([c] + r.value.value, r.value.rest)) else None
  }

  /** Reads the characters of a string up to and with the closing quote. */
  function ReadChars(s: Text): (r: Option<Read<Text>>)
    ensures r.Some? ==> |r.value.rest| < |s|
  {
    if s == [] || s[0] < 32 then None
    else if s[0] == QUOTE then Some(Read([], s[1..]))
    else if s[0] != BACKSLASH then Prepend(s[0], ReadChars(s[1..]))
    else if |s| >= 2 && Unescape(s[1]).Some? then Prepend(Unescape(s[1]).value, ReadChars(s[2..]))
    else if |s| >= 6 && s[1] == 117 && ReadHex4(s[2..6]).Some? then Prepend(ReadHex4(s[2..6]).value, ReadChars(s[6..]))
    else None
  }

  function ReadString(s: Text): (r: Option<Read<Text>>)
    ensures r.Some? ==> |r.value.rest| < |s|
  {
    if s != [] && s[0] == QUOTE then ReadChars(s[1..]) else None
  }

  lemma HexOfUnit(c: Unit)
    ensures ReadHex4(UnicodeEscape(c)[2..6]) == Some(c)
  {
    var h := c / 16;
    var hh := h / 16;
    assert c == 16 * h + c % 16 && h == 16 * hh + h % 16 && hh == 16 * (hh / 16) + hh % 16;
    var s := UnicodeEscape(c)[2..6];
    assert s == [HexUnit(hh / 16), HexUnit(hh % 16), HexUnit(h % 16), HexUnit(c % 16)];
    hide HexUnit, HexDigit, UnicodeEscape;
  }

  lemma ReadUnicodeEscape(c: Unit, more: Text)
    ensures ReadChars(UnicodeEscape(c) + more) == Prepend(c, ReadChars(more))
  {
    HexOfUnit(c);
    var s := UnicodeEscape(c) + more;
    assert s[2..6] == UnicodeEscape(c)[2..6] && s[6..] == more;
    assert s[0] == BACKSLASH && s[1] == 117 && Unescape(117) == None;
    hide UnicodeEscape, ReadHex4, Unescape;
  }

  lemma ReadShortEscape(c: Unit, more: Text)
    requires ShortEscape(c).Some?
    ensures ReadChars([BACKSLASH, ShortEscape(c).value] + more) == Prepend(c, ReadChars(more))
  {
    var s := [BACKSLASH, ShortEscape(c).value] + more;
    assert s[2..] == more;
    assert Unescape(s[1]) == Some(c);
    hide Unescape, ShortEscape, ReadHex4;
  }

  lemma ReadPlain(c: Unit, more: Text)
    requires c >= 32 && c != QUOTE && c != BACKSLASH
    ensures ReadChars([c] + more) == Prepend(c, ReadChars(more))
  {
    assert ([c] + more)[1..] == more;
    hide Unescape, ReadHex4;
  }

  lemma ReadOneUnit(c: Unit, more: Text)
    ensures ReadChars(EscapeUnit(c) + more) == Prepend(c, ReadChars(more))
  {
    if ShortEscape(c).Some? {
      ReadShortEscape(c, more);
    } else if c < 32 || IsLead(c) || IsTrail(c) {
      ReadUnicodeEscape(c, more);
    } else {
      ReadPlain(c, more);
    }
    hide ReadChars, UnicodeEscape;
  }

  lemma ReadClosing(rest: Text)
    ensures ReadChars([QUOTE] + rest) == Some(Read([], rest))
  {
    assert ([QUOTE] + rest)[1..] == rest;
  }

  lemma Reassociate(a: Text, b: Text, c: Text, d: Text)
    ensures (a + b) + c + d == a + (b + c + d)
  {
  }

  lemma SplitPair(x: Unit, y: Unit, rest: Text)
    ensures [x, y] + rest == [x] + ([y] + rest)
  {
  }

  lemma EscapeFirst(s: Text, rest: Text)
    requires s != [] && !(|s| > 1 && IsLead(s[0]) && IsTrail(s[1]))
    ensures Escape(s) + [QUOTE] + rest == EscapeUnit(s[0]) + (Escape(s[1..]) + [QUOTE] + rest)
  {
    assert Escape(s) == EscapeUnit(s[0]) + Escape(s[1..]);
    hide *;
    Reassociate(EscapeUnit(s[0]), Escape(s[1..]), [QUOTE], rest);
  }

  lemma EscapePair(s: Text, rest: Text)
    requires |s| > 1 && IsLead(s[0]) && IsTrail(s[1])
    ensures Escape(s) + [QUOTE] + rest == [s[0]] + ([s[1]] + (Escape(s[2..]) + [QUOTE] + rest))
  {
    assert Escape(s) == [s[0], s[1]] + Escape(s[2..]);
    hide *;
    Reassociate([s[0], s[1]], Escape(s[2..]), [QUOTE], rest);
    SplitPair(s[0], s[1], Escape(s[2..]) + [QUOTE] + rest);
  }

  lemma {:induction false} ReadEscaped(s: Text, rest: Text)
    ensures ReadChars(Escape(s) + [QUOTE] + rest) == Some(Read(s, rest))
  {
    if s == [] {
      ReadClosing(rest);
      hide ReadChars;
      assert Escape(s) + [QUOTE] + rest == [QUOTE] + rest;
    } else if |s| > 1 && IsLead(s[0]) && IsTrail(s[1]) {
      hide ReadChars, Escape;
      ReadEscaped(s[2..], rest);
      EscapePair(s, rest);
      var more := Escape(s[2..]) + [QUOTE] + rest;
      ReadPlain(s[1], more);
      ReadPlain(s[0], [s[1]] + more);
      assert s == [s[0]] + ([s[1]] + s[2..]);
    } else {
      hide ReadChars, Escape, EscapeUnit;
      ReadEscaped(s[1..], rest);
      EscapeFirst(s, rest);
      ReadOneUnit(s[0], Escape(s[1..]) + [QUOTE] + rest);
      assert s == [s[0]] + s[1..];
    }
  }

  /** A quoted string reads back as itself, whatever follows. */
  lemma ReadQuoted(s: Text, rest: Text)
    ensures ReadString(Quote(s) + rest) == Some(Read(s, rest))
  {
    var more := Escape(s) + [QUOTE] + rest;
    assert Quote(s) == [QUOTE] + Escape(s) + [QUOTE];
    hide Escape, ReadChars, Quote;
    Reassociate([QUOTE], Escape(s), [QUOTE], rest);
    assert ([QUOTE] + more)[1..] == more;
    ReadEscaped(s, rest);
  }

  // ---- numbers ----

  predicate IsDigit(c: Unit) { 48 <= c <= 57 }

  function Digits(s: Text): (n: nat)
    ensures n <= |s|
  {
    if s != [] && IsDigit(s[0]) then 1 + Digits(s[1..]) else 0
  }

  function ScanSign(s: Text): (n: nat)
    ensures n <= |s|
  {
    if s != [] && s[0] == MINUS then 1 else 0
  }

  function ScanInteger(s: Text): (n: Option<nat>)
    ensures n.Some? ==> 0 < n.value <= |s|
  {
    if s == [] || !IsDigit(s[0]) then None
    else if s[0] == ZERO then Some(1)
    else Some(Digits(s))
  }

  function ScanFraction(s: Text): (n: Option<nat>)
    ensures n.Some? ==> n.value <= |s|
  {
    if s == [] || s[0] != POINT then Some(0)
    else if Digits(s[1..]) == 0 then None
    else Some(1 + Digits(s[1..]))
  }

  function ScanExponent(s: Text): (n: Option<nat>)
    ensures n.Some? ==> n.value <= |s|
  {
    if s == [] || (s[0] != 101 && s[0] != 69) then Some(0)
    else
      var signed := if |s| > 1 && (s[1] == PLUS || s[1] == MINUS) then 2 else 1;
      if Digits(s[signed..]) == 0 then None else Some(signed + Digits(s[signed..]))
  }

  function ScanTail(s: Text): (n: Option<nat>)
    ensures n.Some? ==> n.value <= |s|
  {
    var fraction := ScanFraction(s);
    if fraction.None? || ScanExponent(s[fraction.value..]).None? then None
    else Some(fraction.value + ScanExponent(s[fraction.value..]).value)
  }

  function ScanUnsigned(s: Text): (n: Option<nat>)
    ensures n.Some? ==> 0 < n.value <= |s|
  {
    var integer := ScanInteger(s);
    if integer.None? || ScanTail(s[integer.value..]).None? then None
    else Some(integer.value + ScanTail(s[integer.value..]).value)
  }

  /** The length of the number that `s` starts with. */
  function ScanNumber(s: Text): (n: Option<nat>)
    ensures n.Some? ==> 0 < n.value <= |s|
  {
    var sign := ScanSign(s);
    if ScanUnsigned(s[sign..]).None? then None else Some(sign + ScanUnsigned(s[sign..]).value)
  }

  /** A complete number of the grammar, which is what printing a finite double gives. */
  predicate IsNumeral(t: Text) {
    ScanNumber(t) == Some(|t|)
  }

  /** The end of the text, or one of the characters that may follow a value. */
  predicate Ends(rest: Text) {
    rest == [] || rest[0] == COMMA || rest[0] == RBRACKET || rest[0] == RBRACE
  }

  lemma {:induction false} DigitsBefore(t: Text, rest: Text)
    requires Ends(rest)
    ensures Digits(t + rest) == Digits(t)
  {
    if t == [] {
      assert t + rest == rest;
    } else {
      DigitsBefore(t[1..], rest);
      assert (t + rest)[1..] == t[1..] + rest;
    }
  }

  lemma IntegerBefore(t: Text, rest: Text)
    requires Ends(rest)
    ensures ScanInteger(t + rest) == ScanInteger(t)
  {
    DigitsBefore(t, rest);
    if t == [] {
      assert t + rest == rest;
    }
  }

  lemma FractionBefore(t: Text, rest: Text)
    requires Ends(rest)
    ensures ScanFraction(t + rest) == ScanFraction(t)
  {
    if t == [] {
      assert t + rest == rest;
    } else {
      DigitsBefore(t[1..], rest);
      assert (t + rest)[1..] == t[1..] + rest;
    }
  }

  lemma ExponentBefore(t: Text, rest: Text)
    requires Ends(rest)
    ensures ScanExponent(t + rest) == ScanExponent(t)
  {
    if t == [] {
      assert t + rest == rest;
    } else {
      var signed := if |t| > 1 && (t[1] == PLUS || t[1] == MINUS) then 2 else 1;
      DropInto(t, rest, signed);
      assert (t + rest)[0] == t[0] && (|t| > 1 ==> (t + rest)[1] == t[1]);
      DigitsBefore(t[signed..], rest);
      hide Digits;
    }
  }

  lemma DropInto(t: Text, rest: Text, i: nat)
    requires i <= |t|
    ensures (t + rest)[i..] == t[i..] + rest
  {
  }

  lemma TailBefore(t: Text, rest: Text)
    requires Ends(rest)
    ensures ScanTail(t + rest) == ScanTail(t)
  {
    hide ScanFraction, ScanExponent, Ends;
    FractionBefore(t, rest);
    if ScanFraction(t).Some? {
      DropInto(t, rest, ScanFraction(t).value);
      ExponentBefore(t[ScanFraction(t).value..], rest);
    }
  }

  lemma UnsignedBefore(t: Text, rest: Text)
    requires Ends(rest)
    ensures ScanUnsigned(t + rest) == ScanUnsigned(t)
  {
    hide ScanInteger, ScanTail, Ends;
    IntegerBefore(t, rest);
    if ScanInteger(t).Some? {
      DropInto(t, rest, ScanInteger(t).value);
      TailBefore(t[ScanInteger(t).value..], rest);
    }
  }

  /** What may follow a value does not change where its number ends. */
  lemma NumberBefore(t: Text, rest: Text)
    requires Ends(rest) && t != []
    ensures ScanNumber(t + rest) == ScanNumber(t)
  {
    var sign := ScanSign(t);
    assert ScanSign(t + rest) == sign && (t + rest)[sign..] == t[sign..] + rest;
    UnsignedBefore(t[sign..], rest);
    hide ScanSign, ScanUnsigned;
  }

  function ReadNumber(s: Text): (r: Option<Read<Text>>)
    ensures r.Some? ==> |r.value.rest| < |s|
  {
    var n := ScanNumber(s);
    if n.Some? then Some(Read(s[..n.value], s[n.value..])) else None
  }

  lemma ReadNumeral(t: Text, rest: Text)
    requires IsNumeral(t) && Ends(rest)
    ensures ReadNumber(t + rest) == Some(Read(t, rest))
  {
    NumberBefore(t, rest);
  }
}
