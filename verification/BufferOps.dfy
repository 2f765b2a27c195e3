/** Integer parsing from src/buffer.c. */
module BufferOps {
  import opened Common

  newtype int64 = x: int | INT64_MIN <= x <= INT64_MAX

  // ----- what an integer text denotes

  predicate IsDecimal(c: byte) {
    '0' as int <= c <= '9' as int
  }

  /** The number a string of decimal digits denotes. */
  function DigitsValue(digits: bytes): int {
    if digits == [] then 0 else DigitsValue(digits[..|digits| - 1]) * 10 + (digits[|digits| - 1] - '0' as int)
  }

  function Sign(text: bytes): int {
    if text != [] && text[0] == '-' as int then -1 else 1
  }

  function Unsigned(text: bytes): bytes {
    if text != [] && text[0] == '-' as int then text[1..] else text
  }

  /** An optional minus sign and one or more digits. */
  predicate IsIntText(text: bytes) {
    Unsigned(text) != [] && forall i :: 0 <= i < |Unsigned(text)| ==> IsDecimal(Unsigned(text)[i])
  }

  function IntValue(text: bytes): int {
    Sign(text) * DigitsValue(Unsigned(text))
  }

  predicate FitsInt64(n: int) {
    INT64_MIN <= n <= INT64_MAX
  }

  /** Some prefix is an integer text whose value does not fit. */
  ghost predicate Overflows(text: bytes) {
    exists k :: 0 <= k <= |text| && IsIntText(text[..k]) && !FitsInt64(IntValue(text[..k]))
  }

  // ----- the parser

  /** Division of `int64_t` values, which rounds toward zero. */
  function CDiv(a: int, b: int): (q: int)
    requires b != 0
    ensures b > 0 && a >= 0 ==> q * b <= a < (q + 1) * b
    ensures b > 0 && a <= 0 ==> (q - 1) * b < a <= q * b
  {
    if (a >= 0) == (b > 0) then Abs(a) / Abs(b) else -(Abs(a) / Abs(b))
  }

  function Abs(a: int): nat {
    if a < 0 then -a else a
  }

  function MultOverflow(a: int64, b: int64): bool {
    if b == 0 then false
    else if b > 0 then a as int > CDiv(INT64_MAX, b as int) || (a as int) < CDiv(INT64_MIN, b as int)
    else (a as int) < CDiv(INT64_MAX, b as int) || a as int > CDiv(INT64_MIN, b as int)
  }

  function AddOverflow(a: int64, b: int64): bool {
    if b > 0 then a as int > INT64_MAX - b as int else (a as int) < INT64_MIN - b as int
  }

  /** For the multiplier the parser uses, the test is exact. */
  lemma MultOverflowExact(a: int64)
    ensures MultOverflow(a, 10) <==> !FitsInt64(a as int * 10)
  {}

  lemma AddOverflowExact(a: int64, b: int64)
    ensures AddOverflow(a, b) <==> !FitsInt64(a as int + b as int)
  {}

  /** One more digit. */
  lemma DigitAppended(text: bytes, i: nat)
    requires i < |text| && IsDecimal(text[i]) && (i == 0 || text[..i] == ['-' as int] || IsIntText(text[..i]))
    ensures IsIntText(text[..i + 1])
    ensures IntValue(text[..i + 1]) == (if i == 0 then 0 else IntValue(text[..i])) * 10 +
      Sign(text) * (text[i] - '0' as int)
  {
    var t, u := text[..i], text[..i + 1];
    assert u == t + [text[i]];
    var d := Unsigned(u);
    if i > 0 {
      assert t[0] == u[0] == text[0];
      assert d == Unsigned(t) + [text[i]];
    }
    assert d[..|d| - 1] == if i > 0 then Unsigned(t) else [];
    assert d[|d| - 1] == text[i];
    assert DigitsValue(d) == DigitsValue(d[..|d| - 1]) * 10 + (text[i] - '0' as int);
    assert Sign(u) == Sign(text);
    assert Sign(text) == 1 || Sign(text) == -1;
  }

  lemma {:induction false} DigitsValueGrows(digits: bytes, k: nat)
    requires k <= |digits| && forall i :: 0 <= i < |digits| ==> IsDecimal(digits[i])
    ensures 0 <= DigitsValue(digits[..k]) <= DigitsValue(digits)
  {
    if k < |digits| {
      var shorter := digits[..|digits| - 1];
      assert shorter[..k] == digits[..k];
      DigitsValueGrows(shorter, k);
    } else {
      assert digits[..k] == digits;
      if k > 0 { DigitsValueGrows(digits[..k - 1], k - 1); }
    }
  }

  /** A text whose value fits has no prefix that does not. */
  lemma PrefixFits(text: bytes, k: nat)
    requires k <= |text| && IsIntText(text) && IsIntText(text[..k]) && !FitsInt64(IntValue(text[..k]))
    ensures !FitsInt64(IntValue(text))
  {
    var d := Unsigned(text);
    var n := |Unsigned(text[..k])|;
    assert Unsigned(text[..k]) == d[..n];
    assert Sign(text[..k]) == Sign(text) && Sign(text) in {1, -1};
    DigitsValueGrows(d, n);
  }

  /** A byte that is not a digit rules out every longer integer text. */
  lemma NotIntText(text: bytes, i: nat, k: nat)
    requires i < k <= |text| && !IsDecimal(text[i]) && (i > 0 || text[i] != '-' as int)
    ensures !IsIntText(text[..k])
  {
    var u := Unsigned(text[..k]);
    var j := if text[0] == '-' as int then i - 1 else i;
    assert u[j] == text[i];
  }

  /**
    `gg_str_to_int64`: succeeds exactly on the texts of int64 values, whatever intermediate values
    arise, and otherwise says whether the digits overflowed before anything else was wrong.
    */
  method StrToInt64(mem: array<byte>, data: nat, len: nat) returns (r: Result<int>)
    requires data + len <= mem.Length
    ensures var text := mem[data..data + len];
      && (r.Success? <==> IsIntText(text) && FitsInt64(IntValue(text)))
      && (r.Success? ==> r.value == IntValue(text))
      && (r == Failure(RANGE) <==> Overflows(text))
      && (r.Failure? ==> r.error == RANGE || r.error == INVALID)
  {
    hide IsIntText, IntValue;
    ghost var text := mem[data..data + len];
    var ret: int64 := 0;
    var sign: int64 := 1;
    var i := 0;
    if len >= 1 && mem[data] == '-' as int {
      i, sign := 1, -1;
      assert text[0] == '-' as int;
    }
    assert text[..i] == if i == 1 then ['-' as int] else [];
    ShortTexts();
    if i == len {
      assert text[..i] == text;
      return Failure(INVALID);
    }
    ghost var start := i;
    assert sign as int == Sign(text) && (sign == 1 || sign == -1);
    while i < len
      invariant start <= i <= len && text == mem[data..data + len]
      invariant text[..start] == [] || text[..start] == ['-' as int]
      invariant start == 1 <==> text[0] == '-' as int
      invariant i == start ==> ret == 0
      invariant if sign == 1 then ret >= 0 else ret <= 0
      invariant i > start ==> IsIntText(text[..i]) && ret as int == IntValue(text[..i])
      invariant forall k :: 0 <= k <= i && IsIntText(text[..k]) ==> FitsInt64(IntValue(text[..k]))
    {
      var c := mem[data + i];
      assert c == text[i];
      if c < '0' as int || c > '9' as int {
        forall k | i < k <= len ensures !IsIntText(text[..k]) { NotIntText(text, i, k); }
        assert text[..len] == text;
        return Failure(INVALID);
      }
      DigitAppended(text, i);
      if i == start { ShortTexts(); }
      MultOverflowExact(ret);
      if MultOverflow(ret, 10) {
        assert !FitsInt64(IntValue(text[..i + 1]));
        FailsToFit(text, i + 1);
        return Failure(RANGE);
      }
      ret := ret * 10;
      var digit: int64 := (c - '0' as int) as int64;
      AddOverflowExact(ret, sign * digit);
      if AddOverflow(ret, sign * digit) {
        FailsToFit(text, i + 1);
        return Failure(RANGE);
      }
      ret := ret + sign * digit;
      i := i + 1;
    }
    assert text[..len] == text;
    return Success(ret as int);
  }

  lemma ShortTexts()
    ensures !IsIntText([]) && !IsIntText(['-' as int]) && IntValue(['-' as int]) == 0
  {}

  lemma FailsToFit(text: bytes, k: nat)
    requires k <= |text| && IsIntText(text[..k]) && !FitsInt64(IntValue(text[..k]))
    ensures Overflows(text) && !(IsIntText(text) && FitsInt64(IntValue(text)))
  {
    if IsIntText(text) { PrefixFits(text, k); }
  }

  /** On an integer text the parser fails only with RANGE, and only when the value does not fit. */
  lemma OverflowsIffTooBig(text: bytes)
    requires IsIntText(text)
    ensures Overflows(text) <==> !FitsInt64(IntValue(text))
  {
    assert text[..|text|] == text;
    if Overflows(text) {
      var k :| 0 <= k <= |text| && IsIntText(text[..k]) && !FitsInt64(IntValue(text[..k]));
      PrefixFits(text, k);
    }
  }
}
