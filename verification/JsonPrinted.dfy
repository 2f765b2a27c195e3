/** How the text that src/json_encode.c prints is parsed by src/json_decode.c. */
module JsonPrinted {
  import opened Common
  import opened Objects
  import opened BufferOps
  import opened JsonGrammar
  import opened JsonParser
  import opened JsonSyntax
  import opened JsonCut
  import opened JsonUnescape
  import opened JsonEncode

  // ----- integers

  function Pow10(k: nat): nat {
    if k == 0 then 1 else 10 * Pow10(k - 1)
  }

  predicate AllDecimal(s: bytes) {
    forall i :: 0 <= i < |s| ==> IsDecimal(s[i])
  }

  /** The digits denote the number, there are no leading zeros, and their count is that of the number. */
  lemma {:induction false} NatTextExact(n: nat)
    ensures var t := NatText(n);
      && AllDecimal(t) && DigitsValue(t) == n
      && (t[0] == '0' as int <==> n == 0) && (n == 0 ==> |t| == 1)
  {
    var t := NatText(n);
    if n < 10 {
      assert DigitsValue(t[..0]) == 0;
    } else {
      NatTextExact(n / 10);
      assert t[..|t| - 1] == NatText(n / 10);
      assert t[0] == NatText(n / 10)[0];
    }
  }

  lemma {:induction false} NatTextLength(n: nat, k: nat)
    requires k >= 1
    ensures |NatText(n)| <= k <==> n < Pow10(k)
    decreases n
  {
    if n < 10 {
      PowGrows(1, k);
    } else if k > 1 {
      NatTextLength(n / 10, k - 1);
    }
  }

  lemma {:induction false} PowGrows(j: nat, k: nat)
    requires j <= k
    ensures Pow10(j) <= Pow10(k)
  {
    if j < k { PowGrows(j, k - 1); }
  }

  /** Parsing what was printed gives the integer back. */
  lemma IntTextExact(n: int)
    ensures IsIntText(IntText(n)) && IntValue(IntText(n)) == n
  {
    NatTextExact(if n < 0 then -n else n);
    var t := IntText(n);
    if n < 0 {
      assert t[1..] == NatText(-n);
      assert Unsigned(t) == NatText(-n) && Sign(t) == -1;
    } else {
      assert t[0] != '-' as int;
    }
  }

  const TEN17: int := 100_000_000_000_000_000

  lemma PowValues()
    ensures Pow10(17) == TEN17 && Pow10(18) == 10 * TEN17
  {
    assert Pow10(6) == 1_000_000;
    assert Pow10(12) == 1_000_000 * Pow10(6);
    assert Pow10(17) == 100_000 * Pow10(12);
  }

  /** The integers that are printed exactly: eighteen characters at most, counting the sign. */
  lemma ShortIntegers(n: int)
    ensures |IntText(n)| < INT_BUFFER_SIZE <==> -TEN17 < n < 10 * TEN17
    ensures |IntText(n)| < INT_BUFFER_SIZE ==> FitsInt64(n) && IntPrinted(n) == Some(IntText(n))
  {
    PowValues();
    if n < 0 {
      NatTextLength(-n, 17);
      assert |IntText(n)| == 1 + |NatText(-n)|;
    } else {
      NatTextLength(n, 18);
    }
  }

  /** At nineteen characters the last digit is lost: what is printed is the text of a tenth, and a NUL. */
  lemma NineteenCharacters(n: int)
    requires |IntText(n)| == INT_BUFFER_SIZE
    ensures IntPrinted(n) == Some(IntText(CDiv(n, 10)) + [0])
    ensures |IntText(CDiv(n, 10))| == INT_BUFFER_SIZE - 1
  {
    var m: nat := if n < 0 then -n else n;
    assert m >= 10;
    assert NatText(m)[..|NatText(m)| - 1] == NatText(m / 10);
    var t := IntText(n);
    if n < 0 {
      assert CDiv(n, 10) == -(m / 10);
      assert t[..|t| - 1] == ['-' as int] + NatText(m / 10);
    } else {
      assert CDiv(n, 10) == m / 10;
    }
  }

  /** What may come after a printed value: nothing that could continue it. */
  predicate Follows(t: bytes) {
    t == [] || (!IsWs(t[0]) && !IsDigit(t[0]) && t[0] != '.' as int && t[0] != 'e' as int && t[0] != 'E' as int)
  }

  lemma {:induction false} DigitsThen(d: bytes, t: bytes)
    requires AllDecimal(d) && Follows(t)
    ensures Digits(d + t) == t
    decreases |d|
  {
    if d == [] {
      assert d + t == t;
    } else {
      assert (d + t)[1..] == d[1..] + t;
      DigitsThen(d[1..], t);
    }
  }

  lemma IntTextParses(n: int, t: bytes)
    requires Follows(t)
    ensures Number(IntText(n) + t) == Some(t)
  {
    hide Digits, NatText;
    var m: nat := if n < 0 then -n else n;
    var d := NatText(m);
    NatTextExact(m);
    var s := IntText(n) + t;
    var u := d + t;
    assert u == if s[0] == '-' as int then s[1..] else s by {
      if n < 0 { assert s[1..] == d + t; }
    }
    assert u[1..] == d[1..] + t;
    if m == 0 {
      assert d[1..] + t == t;
    } else {
      DigitsThen(d[1..], t);
    }
    assert IntPart(s) == Some(t);
  }

  // ----- strings

  /** Structurally valid UTF-8, as the parser checks it. */
  predicate ValidText(d: bytes) {
    d == [] ||
    (StartsCharacter(d) && ValidText(d[Utf8Len(d[0])..]))
  }

  /** A lead byte and as many continuation bytes as it announces. */
  predicate StartsCharacter(d: bytes) {
    d != [] && 0 < Utf8Len(d[0]) <= |d| && forall i :: 1 <= i < Utf8Len(d[0]) ==> ContinuationByte(d[i])
  }

  /** How the first character of a string is written. */
  function EscapedCharacter(d: bytes): bytes
    requires StartsCharacter(d)
  {
    if Utf8Len(d[0]) == 1 then Escape(d[0]) else d[..Utf8Len(d[0])]
  }

  lemma {:induction false} HighBytesUnescaped(d: bytes, n: nat)
    requires n <= |d| && forall i :: 0 <= i < n ==> d[i] >= 0x80
    ensures EscapeAll(d) == d[..n] + EscapeAll(d[n..])
    decreases n
  {
    hide Escape;
    if n == 0 {
      assert d[0..] == d && d[..0] == [];
    } else {
      var t, rest := d[1..], EscapeAll(d[n..]);
      HighBytesUnescaped(t, n - 1);
      HighByte(d[0]);
      assert t[n - 1..] == d[n..] && [d[0]] + t[..n - 1] == d[..n];
      assert [d[0]] + (t[..n - 1] + rest) == [d[0]] + t[..n - 1] + rest;
    }
  }

  lemma HighByte(b: byte)
    ensures b >= 0x80 ==> Escape(b) == [b]
  {}

  lemma CharacterEscaped(d: bytes)
    requires StartsCharacter(d)
    ensures EscapeAll(d) == EscapedCharacter(d) + EscapeAll(d[Utf8Len(d[0])..])
  {
    if Utf8Len(d[0]) > 1 { HighBytesUnescaped(d, Utf8Len(d[0])); }
  }

  /** A written character is one string character of the grammar. */
  lemma CharacterParses(d: bytes, x: bytes)
    requires StartsCharacter(d)
    ensures EscapedCharacter(d) != [] && StrCharLen(EscapedCharacter(d) + x) == |EscapedCharacter(d)|
  {
    hide StrCharLen, Escape;
    if Utf8Len(d[0]) == 1 { ByteParses(d[0], x); } else { LongCharacterParses(d, x); }
  }

  lemma ByteParses(b: byte, x: bytes)
    requires b < 0x80
    ensures StrCharLen(Escape(b) + x) == |Escape(b)|
  {
    hide HexDigit;
    HexDigitsAreHex();
    var s := Escape(b) + x;
    if b == '"' as int || b == '\\' as int {
      assert s[0] == '\\' as int && s[1] == b;
    } else if b <= 0x1F {
      assert s[0] == '\\' as int && s[1] == 'u' as int && s[2] == s[3] == '0' as int && s[4] == HexDigit(b / 16) &&
        s[5] == HexDigit(b % 16);
    } else {
      assert s[0] == b;
    }
  }

  lemma LongCharacterParses(d: bytes, x: bytes)
    requires StartsCharacter(d) && Utf8Len(d[0]) > 1
    ensures var e := d[..Utf8Len(d[0])]; StrCharLen(e + x) == |e|
  {
    var e := d[..Utf8Len(d[0])];
    var s := e + x;
    assert s[0] == d[0];
    forall i | 1 <= i < |e| ensures ContinuationByte(s[i]) { assert s[i] == d[i]; }
    assert StartsWithCodepoint(s);
  }

  lemma HexDigitsAreHex()
    ensures forall d: nat :: d < 16 ==> IsHex(HexDigit(d)) && HexValue(HexDigit(d)) == Some(d)
  {}

  lemma {:induction false} ValidTextParses(d: bytes, t: bytes)
    requires ValidText(d)
    ensures StrBody(EscapeAll(d) + (['"' as int] + t)) == ['"' as int] + t
    decreases |d|
  {
    hide StrCharLen, StartsCharacter, Escape, EscapeAll;
    var q := ['"' as int] + t;
    if d == [] {
      EscapeNothing();
      assert [] + q == q;
      QuoteStops(q);
    } else {
      var n := Utf8Len(d[0]);
      StartsIs(d);
      var e, rest := EscapedCharacter(d), EscapeAll(d[n..]);
      CharacterEscaped(d);
      CharacterParses(d, rest + q);
      assert EscapeAll(d) + q == e + (rest + q);
      assert (e + (rest + q))[|e|..] == rest + q;
      ValidTextParses(d[n..], t);
    }
  }

  lemma EscapeNothing()
    ensures EscapeAll([]) == []
  {}

  lemma StartsIs(d: bytes)
    requires StartsCharacter(d)
    ensures d != [] && 0 < Utf8Len(d[0]) <= |d|
  {}

  lemma QuoteStops(s: bytes)
    requires s != [] && s[0] == '"' as int
    ensures StrCharLen(s) == 0
  {}

  /** Text that is not structurally valid stops the string parser at a byte that is no quote. */
  lemma {:induction false} InvalidTextStops(d: bytes, t: bytes)
    requires !ValidText(d)
    ensures var r := StrBody(EscapeAll(d) + (['"' as int] + t)); r != [] && r[0] != '"' as int
    decreases |d|
  {
    hide StrCharLen, StartsCharacter, Escape, EscapeAll;
    var q := ['"' as int] + t;
    if StartsCharacter(d) {
      StartsIs(d);
      var n := Utf8Len(d[0]);
      var e, rest := EscapedCharacter(d), EscapeAll(d[n..]);
      CharacterEscaped(d);
      CharacterParses(d, rest + q);
      assert EscapeAll(d) + q == e + (rest + q);
      assert (e + (rest + q))[|e|..] == rest + q;
      InvalidTextStops(d[n..], t);
    } else {
      BadCharacterStops(d, q);
    }
  }

  lemma BadCharacterStops(d: bytes, q: bytes)
    requires d != [] && !StartsCharacter(d) && q != [] && q[0] == '"' as int
    ensures var s := EscapeAll(d) + q; StrCharLen(s) == 0 && s != [] && s[0] != '"' as int
  {
    hide EscapeAll, StrCharLen, ValidText;
    var s := EscapeAll(d) + q;
    HighFirst(d);
    if Utf8Len(d[0]) > 0 {
      // the first byte that is missing, or is no continuation byte
      var i := FirstBad(d, 1, Utf8Len(d[0]));
      HighBytesUnescaped(d, i);
      assert s == d[..i] + (EscapeAll(d[i..]) + q);
      if i < |d| {
        FirstEscaped(d[i..]);
        assert s[i] == EscapeAll(d[i..])[0];
      } else {
        EscapeNothing();
        assert s[i] == q[0];
      }
      NoCharacter(s, i);
    } else {
      NoCharacter(s, 0);
    }
  }

  lemma HighFirst(d: bytes)
    requires d != [] && !StartsCharacter(d)
    ensures d[0] >= 0x80 && EscapeAll(d) != [] && EscapeAll(d)[0] == d[0]
    ensures Utf8Len(d[0]) > 0 ==> Utf8Len(d[0]) > |d| || exists j :: 1 <= j < Utf8Len(d[0]) && !ContinuationByte(d[j])
  {
    assert Escape(d[0]) == [d[0]];
  }

  /** Escaping never turns something else into a continuation byte. */
  lemma FirstEscaped(d: bytes)
    requires d != [] && !ContinuationByte(d[0])
    ensures EscapeAll(d) != [] && !ContinuationByte(EscapeAll(d)[0])
  {
    assert EscapeAll(d)[0] == Escape(d[0])[0];
  }

  lemma NoCharacter(s: bytes, i: nat)
    requires s != [] && s[0] >= 0x80 && (i == 0 ==> Utf8Len(s[0]) == 0)
    requires i > 0 ==> i < Utf8Len(s[0]) && i < |s| && !ContinuationByte(s[i])
    ensures StrCharLen(s) == 0
  {}

  function FirstBad(d: bytes, i: nat, n: nat): (k: nat)
    requires 1 <= i <= n && i <= |d| && (n > |d| || exists j :: i <= j < n && !ContinuationByte(d[j]))
    ensures i <= k < n && k <= |d| && (forall j :: i <= j < k ==> ContinuationByte(d[j]))
    ensures k < |d| ==> !ContinuationByte(d[k])
    decreases n - i
  {
    if i == |d| || !ContinuationByte(d[i]) then i else FirstBad(d, i + 1, n)
  }

  /** A printed string parses exactly when it is structurally valid UTF-8. */
  lemma QuotedParses(d: bytes, t: bytes)
    ensures var s := Quoted(d) + t;
      if ValidText(d) then StrValue(s) == Some(Parsed(STR, |s| - 1, |t| + 1, 0, t)) else StrValue(s) == None
  {
    hide StrBody, ValidText, EscapeAll;
    var s := Quoted(d) + t;
    assert s[1..] == EscapeAll(d) + (['"' as int] + t);
    if ValidText(d) {
      ValidTextParses(d, t);
      assert (['"' as int] + t)[1..] == t;
    } else {
      InvalidTextStops(d, t);
    }
  }

  /** Unescaping undoes escaping, whatever the bytes. */
  lemma {:induction false} UnescapeEscape(d: bytes)
    ensures Unescape(EscapeAll(d)) == Some(d)
    decreases |d|
  {
    hide Unescape, Escape;
    if d == [] {
      NothingUnescapes();
    } else {
      UnescapeEscape(d[1..]);
      ByteUnescapes(d[0]);
      UnescapeConcat(Escape(d[0]), EscapeAll(d[1..]));
      assert [d[0]] + d[1..] == d;
    }
  }

  lemma NothingUnescapes()
    ensures Unescape([]) == Some([])
  {}

  lemma ByteUnescapes(b: byte)
    ensures Unescape(Escape(b)) == Some([b])
  {
    hide Utf8, Hex4;
    var e := Escape(b);
    NothingUnescapes();
    if |e| == 6 {
      ControlByte(b);
      assert e[6..] == [] && [b] + [] == [b];
    } else if |e| == 2 {
      assert UnescapeOne(e) == Some((2, [b]));
      assert e[2..] == [] && [b] + [] == [b];
    } else {
      assert e[1..] == [] && [b] + [] == [b];
    }
  }

  lemma ControlByte(b: byte)
    requires b <= 0x1F
    ensures UnescapeOne(Escape(b)) == Some((6, [b]))
  {
    hide HexDigit, HexValue, Utf8, Hex4;
    var e := Escape(b);
    var hex := ['0' as int, '0' as int, HexDigit(b / 16), HexDigit(b % 16)];
    assert e[2..6] == hex;
    ControlHex(b);
    ControlUtf8(b);
  }

  lemma ControlHex(b: byte)
    requires b <= 0x1F
    ensures Hex4(['0' as int, '0' as int, HexDigit(b / 16), HexDigit(b % 16)]) == Some(b)
  {
    hide HexDigit, HexValue;
    HexDigitsAreHex();
    ZeroDigit();
  }

  lemma ZeroDigit()
    ensures HexValue('0' as int) == Some(0)
  {}

  lemma ControlUtf8(b: byte)
    requires b <= 0x1F
    ensures Utf8(b) == [b]
  {
  }
}
