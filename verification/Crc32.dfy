/** Bytes as bit vectors. These facts are about the solver's conversions, and stay apart from the rest. */
module ByteBits {
  import opened Common

  lemma {:induction false} ByteRoundTrip(a: byte)
    ensures (a as bv8) as int == a
  {
    if a > 0 {
      ByteRoundTrip(a - 1);
      var v := (a - 1) as bv8;
      NextByte(v);
      Bv8RoundTrip(v + 1);
    }
  }

  lemma Bv8RoundTrip(v: bv8)
    ensures 0 <= v as int < 256 && (v as int) as bv8 == v
  {}

  lemma NextByte(v: bv8)
    requires v != 0xFF
    ensures (v + 1) as int == v as int + 1
  {}

  lemma Bv8Widens(a: bv8, b: bv8)
    requires a as bv32 == b as bv32
    ensures a == b
  {}
}

/** The table-driven CRC of src/crc32.c against the bit-at-a-time CRC of section 8 of RFC 1952. */
module Crc32 {
  import opened Common
  import opened ByteBits

  const POLYNOMIAL: bv32 := 0xEDB8_8320

  // The operators by name, so that proofs can use their laws without looking at bits.

  function Xor(a: bv32, b: bv32): bv32 {
    a ^ b
  }

  function Half(c: bv32): bv32 {
    c >> 1
  }

  predicate Odd(c: bv32) {
    c & 1 == 1
  }

  function LowBit(c: bv32): bv32 {
    c & 1
  }

  function LowByte(c: bv32): bv32 {
    c & 0xFF
  }

  function HighBytes(c: bv32): bv32 {
    c & 0xFFFF_FF00
  }

  function Drop8(c: bv32): bv32 {
    c >> 8
  }

  function Not(c: bv32): bv32 {
    !c
  }

  /** A byte as a register value. */
  function Bv(b: byte): bv32 {
    (b as bv8) as bv32
  }

  // ----- one bit at a time

  /** Shift one bit out of the register; if it is set, subtract the polynomial. */
  function Shift(c: bv32): bv32 {
    if Odd(c) then Xor(POLYNOMIAL, Half(c)) else Half(c)
  }

  function Shifts(c: bv32, k: nat): bv32
    decreases k
  {
    if k == 0 then c else Shifts(Shift(c), k - 1)
  }

  /** Feed the `k` lowest bits of a byte into the register, lowest bit first. */
  function FeedBits(c: bv32, b: bv32, k: nat): bv32
    decreases k
  {
    if k == 0 then c else FeedBits(Shift(Xor(c, LowBit(b))), Half(b), k - 1)
  }

  /** The register after a sequence of bytes. */
  function Feed(c: bv32, data: bytes): bv32 {
    if data == [] then c else FeedBits(Feed(c, data[..|data| - 1]), Bv(data[|data| - 1]), 8)
  }

  /** The CRC of section 8 of RFC 1952, continued from an earlier one. */
  function Crc(crc: bv32, data: bytes): bv32 {
    Not(Feed(Not(crc), data))
  }

  // ----- laws of the operators

  lemma XorAssoc(a: bv32, b: bv32, c: bv32)
    ensures Xor(Xor(a, b), c) == Xor(a, Xor(b, c))
  {}

  lemma XorComm(a: bv32, b: bv32)
    ensures Xor(a, b) == Xor(b, a)
  {}

  lemma XorZero(a: bv32)
    ensures Xor(a, 0) == a && Xor(0, a) == a && Xor(a, a) == 0
  {}

  lemma XorCancel(a: bv32, b: bv32, c: bv32)
    ensures Xor(Xor(a, b), Xor(a, c)) == Xor(b, c)
    ensures Xor(a, b) == Xor(a, c) ==> b == c
  {
    hide Xor;
    XorComm(a, b);
    XorAssoc(b, a, Xor(a, c));
    XorAssoc(a, a, c);
    XorAssoc(a, a, b);
    XorZero(a);
    XorZero(b);
    XorZero(c);
  }

  lemma XorSwap(a: bv32, b: bv32, c: bv32)
    ensures Xor(a, Xor(b, c)) == Xor(b, Xor(a, c)) && Xor(Xor(a, b), c) == Xor(Xor(a, c), b)
  {
    hide Xor;
    XorAssoc(a, b, c);
    XorAssoc(b, a, c);
    XorComm(a, b);
    XorAssoc(a, c, b);
    XorComm(b, c);
  }

  lemma HalfXor(c: bv32, d: bv32)
    ensures Half(Xor(c, d)) == Xor(Half(c), Half(d))
    ensures Odd(Xor(c, d)) <==> (Odd(c) != Odd(d))
  {}

  lemma LowBitLaws(b: bv32)
    ensures Half(LowBit(b)) == 0 && (Odd(LowBit(b)) <==> Odd(b))
  {}

  // ----- algebra of the register

  lemma ShiftLinear(c: bv32, d: bv32)
    ensures Shift(Xor(c, d)) == Xor(Shift(c), Shift(d))
  {
    hide Xor, Half, Odd, POLYNOMIAL;
    HalfXor(c, d);
    XorAssoc(POLYNOMIAL, Half(c), Half(d));
    XorSwap(POLYNOMIAL, Half(c), Half(d));
    XorCancel(POLYNOMIAL, Half(c), Half(d));
  }

  /** Nothing is lost by a shift: the polynomial's top bit tells which bit went out. */
  lemma ShiftInjective(c: bv32, d: bv32)
    requires Shift(c) == Shift(d)
    ensures c == d
  {}

  /** Bits that are not at the low end just move. */
  lemma ShiftMovesHighBits(c: bv32, b: bv32)
    ensures Shift(Xor(c, b)) == Xor(Shift(Xor(c, LowBit(b))), Half(b))
  {
    hide Xor, Half, Odd, LowBit, POLYNOMIAL;
    ShiftLinear(c, b);
    ShiftLinear(c, LowBit(b));
    LowBitLaws(b);
    XorZero(POLYNOMIAL);
    XorZero(Half(b));
    XorAssoc(Shift(c), Shift(LowBit(b)), Half(b));
  }

  lemma {:induction false} ShiftsLinear(c: bv32, d: bv32, k: nat)
    ensures Shifts(Xor(c, d), k) == Xor(Shifts(c, k), Shifts(d, k))
    decreases k
  {
    hide Xor, Shift;
    if k > 0 {
      ShiftLinear(c, d);
      ShiftsLinear(Shift(c), Shift(d), k - 1);
    }
  }

  lemma {:induction false} ShiftsInjective(c: bv32, d: bv32, k: nat)
    requires Shifts(c, k) == Shifts(d, k)
    ensures c == d
    decreases k
  {
    hide Shift;
    if k > 0 {
      ShiftsInjective(Shift(c), Shift(d), k - 1);
      ShiftInjective(c, d);
    }
  }

  lemma {:induction false} ShiftsAdd(c: bv32, j: nat, k: nat)
    ensures Shifts(Shifts(c, j), k) == Shifts(c, j + k)
    decreases j
  {
    hide Shift;
    if j > 0 { ShiftsAdd(Shift(c), j - 1, k); }
  }

  function Halves(b: bv32, k: nat): bv32
    decreases k
  {
    if k == 0 then b else Halves(Half(b), k - 1)
  }

  /** The `k` lowest bits are zero. */
  predicate Even(b: bv32, k: nat)
    decreases k
  {
    k == 0 || (!Odd(b) && Even(Half(b), k - 1))
  }

  /** Zero bits are shifted out without the polynomial. */
  lemma {:induction false} ShiftsZeros(b: bv32, k: nat)
    requires Even(b, k)
    ensures Shifts(b, k) == Halves(b, k)
    decreases k
  {
    hide Xor, Half, Odd;
    if k > 0 { ShiftsZeros(Half(b), k - 1); }
  }

  lemma EightBits(b: bv32)
    ensures Halves(b, 8) == Half(Half(Half(Half(Half(Half(Half(Half(b))))))))
    ensures
      !Odd(b) && !Odd(Half(b)) && !Odd(Half(Half(b))) && !Odd(Half(Half(Half(b)))) && !Odd(Half(Half(Half(Half(b)))))
      && !Odd(Half(Half(Half(Half(Half(b)))))) && !Odd(Half(Half(Half(Half(Half(Half(b))))))) &&
        !Odd(Half(Half(Half(Half(Half(Half(Half(b))))))))
      ==> Even(b, 8)
  {
    hide Half, Odd;
    var b4 := Half(Half(Half(Half(b))));
    assert Halves(b4, 4) == Half(Half(Half(Half(b4))));
    assert Halves(b, 8) == Halves(b4, 4);
    var b2 := Half(Half(b));
    assert Even(Half(Half(b4)), 2) == (!Odd(Half(Half(b4))) && !Odd(Half(Half(Half(b4)))));
    assert Even(b4, 4) == (!Odd(b4) && !Odd(Half(b4)) && Even(Half(Half(b4)), 2));
    assert Even(b2, 6) == (!Odd(b2) && !Odd(Half(b2)) && Even(b4, 4));
  }

  lemma EightHalves(b: bv32)
    ensures Half(Half(Half(Half(Half(Half(Half(Half(b)))))))) == Drop8(b)
  {}

  lemma HighBytesEven(b: bv32)
    ensures var d := HighBytes(b);
      !Odd(d) && !Odd(Half(d)) && !Odd(Half(Half(d))) && !Odd(Half(Half(Half(d)))) && !Odd(Half(Half(Half(Half(d)))))
      && !Odd(Half(Half(Half(Half(Half(d)))))) && !Odd(Half(Half(Half(Half(Half(Half(d))))))) &&
        !Odd(Half(Half(Half(Half(Half(Half(Half(d))))))))
  {}

  lemma ByteParts(c: bv32)
    ensures c == Xor(LowByte(c), HighBytes(c)) && Drop8(HighBytes(c)) == Drop8(c)
  {}

  /** One table lookup does what eight shifts do. */
  lemma TableStep(c: bv32)
    ensures Shifts(c, 8) == Xor(Shifts(LowByte(c), 8), Drop8(c))
  {
    hide *;
    var d := HighBytes(c);
    ByteParts(c);
    ShiftsLinear(LowByte(c), d, 8);
    EightBits(d);
    HighBytesEven(c);
    EightHalves(d);
    ShiftsZeros(d, 8);
  }

  /** Feeding a byte bit by bit is feeding it at once: one exclusive or, then eight shifts. */
  lemma {:induction false} FeedBitsAtOnce(c: bv32, b: bv32, k: nat)
    requires Halves(b, k) == 0
    ensures FeedBits(c, b, k) == Shifts(Xor(c, b), k)
    decreases k
  {
    hide Xor, Shift, Half, LowBit;
    if k == 0 {
      XorZero(c);
    } else {
      ShiftMovesHighBits(c, b);
      FeedBitsAtOnce(Shift(Xor(c, LowBit(b))), Half(b), k - 1);
    }
  }

  lemma FeedByte(c: bv32, b: byte)
    ensures FeedBits(c, Bv(b), 8) == Shifts(Xor(c, Bv(b)), 8)
  {
    hide *;
    EightBits(Bv(b));
    EightHalves(Bv(b));
    ByteIsSmall(b);
    FeedBitsAtOnce(c, Bv(b), 8);
  }

  lemma ByteIsSmall(b: byte)
    ensures Drop8(Bv(b)) == 0
  {}

  // ----- what the CRC guarantees

  lemma {:induction false} FeedConcat(c: bv32, a: bytes, b: bytes)
    ensures Feed(c, a + b) == Feed(Feed(c, a), b)
    decreases |b|
  {
    hide FeedBits;
    if b == [] {
      assert a + b == a;
    } else {
      assert (a + b)[..|a + b| - 1] == a + b[..|b| - 1];
      FeedConcat(c, a, b[..|b| - 1]);
    }
  }

  lemma NotNot(c: bv32)
    ensures Not(Not(c)) == c
  {}

  lemma NotInjective(c: bv32, d: bv32)
    requires Not(c) == Not(d)
    ensures c == d
  {
    NotNot(c);
    NotNot(d);
  }

  /** Updating twice is updating once with both pieces. */
  lemma CrcChains(crc: bv32, a: bytes, b: bytes)
    ensures Crc(Crc(crc, a), b) == Crc(crc, a + b)
  {
    hide Feed, Not;
    FeedConcat(Not(crc), a, b);
    NotNot(Feed(Not(crc), a));
  }

  /** Different registers stay different while the same bytes are fed. */
  lemma {:induction false} FeedInjective(c: bv32, d: bv32, data: bytes)
    requires Feed(c, data) == Feed(d, data)
    ensures c == d
    decreases |data|
  {
    hide FeedBits, Xor, Shifts;
    if data != [] {
      var init, last := data[..|data| - 1], data[|data| - 1];
      FeedByte(Feed(c, init), last);
      FeedByte(Feed(d, init), last);
      ShiftsInjective(Xor(Feed(c, init), Bv(last)), Xor(Feed(d, init), Bv(last)), 8);
      XorComm(Feed(c, init), Bv(last));
      XorComm(Feed(d, init), Bv(last));
      XorCancel(Bv(last), Feed(c, init), Feed(d, init));
      FeedInjective(c, d, init);
    }
  }

  /** A byte moved up by `j` bytes. */
  function Up(b: bv32, j: nat): bv32 {
    if j == 0 then b else Up8(Up(b, j - 1))
  }

  function Up8(b: bv32): bv32 {
    b << 8
  }

  lemma Up8Drops(b: bv32)
    requires b < 0x100_0000
    ensures Drop8(Up8(b)) == b && HighBytes(Up8(b)) == Up8(b)
  {}

  lemma Up8Grows(b: bv32)
    ensures b < 0x100 ==> Up8(b) < 0x1_0000
    ensures b < 0x1_0000 ==> Up8(b) < 0x100_0000
  {}

  lemma UpSmall(b: bv32, j: nat)
    requires b < 0x100 && j <= 2
    ensures Up(b, j) < 0x100_0000
  {
    hide Up8;
    Up8Grows(b);
    Up8Grows(Up8(b));
    assert Up(b, 1) == Up8(b);
    assert Up(b, 2) == Up8(Up(b, 1));
    SmallIsSmall(b);
    SmallIsSmall(Up8(b));
  }

  lemma SmallIsSmall(b: bv32)
    ensures b < 0x100 ==> b < 0x1_0000
    ensures b < 0x1_0000 ==> b < 0x100_0000
  {}

  lemma ShiftsUp8(b: bv32)
    requires b < 0x100_0000
    ensures Shifts(Up8(b), 8) == b
  {
    hide *;
    Up8Drops(b);
    EightBits(Up8(b));
    HighBytesEven(Up8(b));
    EightHalves(Up8(b));
    ShiftsZeros(Up8(b), 8);
  }

  /** Shifting a byte back down from where it was moved up to. */
  lemma {:induction false} ShiftsUp(b: bv32, j: nat)
    requires b < 0x100 && j <= 3
    ensures Shifts(Up(b, j), 8 * j) == b
    decreases j
  {
    hide Up8, Shift;
    if j > 0 {
      UpSmall(b, j - 1);
      ShiftsUp8(Up(b, j - 1));
      ShiftsAdd(Up(b, j), 8, 8 * (j - 1));
      ShiftsUp(b, j - 1);
    }
  }

  /** Up to four bytes as a word, the first byte lowest. */
  function Word(data: bytes): bv32 {
    if data == [] then 0 else Xor(Word(data[..|data| - 1]), Up(Bv(data[|data| - 1]), |data| - 1))
  }

  lemma ByteBelow(b: byte)
    ensures Bv(b) < 0x100
  {}

  /** Feeding up to four bytes is feeding their word at once. */
  lemma {:induction false} FeedWord(c: bv32, data: bytes)
    requires |data| <= 4
    ensures Feed(c, data) == Shifts(Xor(c, Word(data)), 8 * |data|)
    decreases |data|
  {
    hide FeedBits, Xor, Shift, Up, Shifts;
    if data == [] {
      XorZero(c);
      NoShifts(c);
    } else {
      var init, j := data[..|data| - 1], |data| - 1;
      var b := Bv(data[j]);
      ByteBelow(data[j]);
      FeedWord(c, init);
      FeedByte(Feed(c, init), data[j]);
      ShiftsUp(b, j);
      ShiftsLinear(Xor(c, Word(init)), Up(b, j), 8 * j);
      XorAssoc(c, Word(init), Up(b, j));
      ShiftsAdd(Xor(c, Word(data)), 8 * j, 8);
    }
  }

  lemma NoShifts(c: bv32)
    ensures Shifts(c, 0) == c
  {}

  lemma {:induction false} WordOfFour(d: bytes)
    requires |d| == 4
    ensures Word(d) == Xor(Xor(Xor(Xor(0, Bv(d[0])), Up8(Bv(d[1]))), Up8(Up8(Bv(d[2])))), Up8(Up8(Up8(Bv(d[3])))))
  {
    hide Xor, Up8, Bv, Word, Up;
    assert d[..3][..2] == d[..2] && d[..2][..1] == d[..1] && d[..1][..0] == [] && d[..4] == d;
    forall k | 0 <= k < 4 ensures d[..k + 1][..k] == d[..k] && Word(d[..k + 1]) == Xor(Word(d[..k]), Up(Bv(d[k]), k)) {
      WordStep(d[..k + 1]);
    }
    assert d[..0] == [];
    WordOfNone();
    UpIs(Bv(d[0]));
    UpIs(Bv(d[1]));
    UpIs(Bv(d[2]));
    UpIs(Bv(d[3]));
  }

  lemma WordStep(data: bytes)
    requires data != []
    ensures Word(data) == Xor(Word(data[..|data| - 1]), Up(Bv(data[|data| - 1]), |data| - 1))
  {}

  lemma WordOfNone()
    ensures Word([]) == 0
  {}

  lemma UpIs(b: bv32)
    ensures Up(b, 0) == b && Up(b, 1) == Up8(b) && Up(b, 2) == Up8(Up8(b)) && Up(b, 3) == Up8(Up8(Up8(b)))
  {
    hide Up8;
    assert Up(b, 3) == Up8(Up(b, 2));
  }

  lemma FourBytesInWord(a: bv32, b: bv32, c: bv32, d: bv32)
    requires a < 0x100 && b < 0x100 && c < 0x100 && d < 0x100
    ensures var w := Xor(Xor(Xor(Xor(0, a), Up8(b)), Up8(Up8(c))), Up8(Up8(Up8(d))));
      w & 0xFF == a && (w >> 8) & 0xFF == b && (w >> 16) & 0xFF == c && (w >> 24) & 0xFF == d
  {}

  lemma SameByte(a: byte, b: byte)
    ensures Bv(a) == Bv(b) ==> a == b
  {
    ByteRoundTrip(a);
    ByteRoundTrip(b);
    if Bv(a) == Bv(b) { Bv8Widens(a as bv8, b as bv8); }
  }

  /** Four bytes are determined by their word. */
  lemma WordInjective(x: bytes, y: bytes)
    requires |x| == |y| == 4 && Word(x) == Word(y)
    ensures x == y
  {
    hide Word, Xor, Up8;
    WordOfFour(x);
    WordOfFour(y);
    forall i | 0 <= i < 4 ensures Bv(x[i]) < 0x100 && Bv(y[i]) < 0x100 { ByteBelow(x[i]); ByteBelow(y[i]); }
    FourBytesInWord(Bv(x[0]), Bv(x[1]), Bv(x[2]), Bv(x[3]));
    FourBytesInWord(Bv(y[0]), Bv(y[1]), Bv(y[2]), Bv(y[3]));
    SameByte(x[0], y[0]);
    SameByte(x[1], y[1]);
    SameByte(x[2], y[2]);
    SameByte(x[3], y[3]);
  }

  /** From the same register, different bursts of up to four bytes give different registers. */
  lemma {:induction false} BurstInjective(c: bv32, x: bytes, y: bytes)
    requires |x| == |y| <= 4 && Feed(c, x) == Feed(c, y)
    ensures x == y
    decreases 4 - |x|
  {
    hide Feed, Word, Xor, Shifts;
    if |x| == 4 {
      FeedWord(c, x);
      FeedWord(c, y);
      ShiftsInjective(Xor(c, Word(x)), Xor(c, Word(y)), 32);
      XorCancel(c, Word(x), Word(y));
      WordInjective(x, y);
    } else {
      FeedConcat(c, x, [0]);
      FeedConcat(c, y, [0]);
      BurstInjective(c, x + [0], y + [0]);
      assert x == (x + [0])[..|x|] && y == (y + [0])[..|y|];
    }
  }

  /** `a` and `b` differ, but only within four consecutive bytes. */
  ghost predicate DifferByBurst(a: bytes, b: bytes) {
    a != b && |a| == |b| && exists i, j :: 0 <= i <= j <= |a| && Burst(a, b, i, j)
  }

  ghost predicate Burst(a: bytes, b: bytes, i: nat, j: nat) {
    i <= j <= |a| && |a| == |b| && j - i <= 4 && a[..i] == b[..i] && a[j..] == b[j..]
  }

  /** A change confined to four consecutive bytes always changes the CRC. */
  lemma BurstChangesCrc(crc: bv32, a: bytes, b: bytes)
    requires DifferByBurst(a, b)
    ensures Crc(crc, a) != Crc(crc, b)
  {
    hide Feed, Not;
    var i, j :| 0 <= i <= j <= |a| && Burst(a, b, i, j);
    var c := Feed(Not(crc), a[..i]);
    assert a == a[..i] + a[i..j] + a[j..] && b == b[..i] + b[i..j] + b[j..];
    FeedConcat(Not(crc), a[..i] + a[i..j], a[j..]);
    FeedConcat(Not(crc), b[..i] + b[i..j], b[j..]);
    FeedConcat(Not(crc), a[..i], a[i..j]);
    FeedConcat(Not(crc), b[..i], b[i..j]);
    if Crc(crc, a) == Crc(crc, b) {
      NotInjective(Feed(Not(crc), a), Feed(Not(crc), b));
      FeedInjective(Feed(c, a[i..j]), Feed(c, b[i..j]), a[j..]);
      BurstInjective(c, a[i..j], b[i..j]);
    }
  }

  // ----- the source

  ghost predicate IsCrcTable(table: seq<bv32>) {
    |table| == 256 && forall n :: 0 <= n < 256 ==> table[n] == Shifts(Bv(n), 8)
  }

  /** `make_crc_table`. */
  method MakeCrcTable() returns (table: array<bv32>)
    ensures fresh(table) && IsCrcTable(table[..])
  {
    hide Shift, Bv;
    table := new bv32[256](_ => 0);
    for n := 0 to 256
      invariant forall m :: 0 <= m < n ==> table[m] == Shifts(Bv(m), 8)
    {
      table[n] := CrcOfByte(n);
    }
  }

  /** The inner loop of `make_crc_table`. */
  method CrcOfByte(n: byte) returns (c: bv32)
    ensures c == Shifts(Bv(n), 8)
  {
    hide Shift, Bv;
    c := Bv(n);
    for k := 0 to 8
      invariant Shifts(c, 8 - k) == Shifts(Bv(n), 8)
    {
      ShiftIs(c);
      if c & 1 == 1 {
        c := 0xEDB8_8320 ^ (c >> 1);
      } else {
        c := c >> 1;
      }
    }
  }

  lemma ShiftIs(c: bv32)
    ensures Shift(c) == if c & 1 == 1 then 0xEDB8_8320 ^ (c >> 1) else c >> 1
  {}

  /** `crc_step`. The table is never changed once it is made, so it is passed on by value. */
  method CrcStep(table: seq<bv32>, crc: bv32, b: byte) returns (c: bv32)
    requires IsCrcTable(table)
    ensures c == FeedBits(crc, Bv(b), 8)
  {
    hide FeedBits, Shifts, Xor, LowByte, Drop8, Bv;
    var index := Index(Xor(crc, Bv(b)));
    assert table[index] == Shifts(Bv(index), 8);
    c := Xor(table[index], Drop8(crc));
    IndexIs(Xor(crc, Bv(b)));
    FeedByte(crc, b);
    TableStep(Xor(crc, Bv(b)));
    ByteBelow(b);
    DropsByte(crc, Bv(b));
  }

  /** The low byte of the register, as an array index. */
  function Index(c: bv32): byte {
    ((c & 0xFF) as bv8) as int
  }

  lemma IndexIs(c: bv32)
    ensures Bv(Index(c)) == LowByte(c)
  {
    hide Bv, LowByte;
    ByteOfIndex((c & 0xFF) as bv8);
    LowByteFits(c);
  }

  lemma ByteOfIndex(v: bv8)
    ensures 0 <= v as int < 256 && Bv(v as int) == v as bv32
  {
    Bv8RoundTrip(v);
  }

  lemma LowByteFits(c: bv32)
    ensures ((c & 0xFF) as bv8) as bv32 == LowByte(c)
  {}

  lemma DropsByte(crc: bv32, b: bv32)
    requires b < 0x100
    ensures Drop8(Xor(crc, b)) == Drop8(crc)
  {}

  /** `gg_update_crc`: the table-driven update computes the bit-at-a-time CRC. */
  method UpdateCrc(table: seq<bv32>, crc: bv32, buf: bytes) returns (r: bv32)
    requires IsCrcTable(table)
    ensures r == Crc(crc, buf)
  {
    hide FeedBits, Not, Bv;
    var c := Not(crc);
    for n := 0 to |buf|
      invariant c == Feed(Not(crc), buf[..n])
    {
      c := CrcStep(table, c, buf[n]);
      assert buf[..n + 1][..n] == buf[..n];
    }
    assert buf[..|buf|] == buf;
    return Not(c);
  }

  // ----- as unsigned integers

  type uint32 = x: int | 0 <= x < 0x1_0000_0000

  /** The CRC as the `uint32_t` that is written to and read from packets. */
  function CrcU32(crc: uint32, data: bytes): (r: uint32) {
    Crc(crc as bv32, data) as int
  }

  lemma BvRoundTrip(v: bv32)
    ensures 0 <= v as int < 0x1_0000_0000 && (v as int) as bv32 == v
  {}

  lemma CrcU32Chains(crc: uint32, a: bytes, b: bytes)
    ensures CrcU32(CrcU32(crc, a), b) == CrcU32(crc, a + b)
  {
    hide Crc;
    BvRoundTrip(Crc(crc as bv32, a));
    CrcChains(crc as bv32, a, b);
  }

  /** Four consecutive bytes cannot be changed without changing the CRC. */
  lemma BurstChangesCrcU32(crc: uint32, a: bytes, b: bytes)
    requires DifferByBurst(a, b)
    ensures CrcU32(crc, a) != CrcU32(crc, b)
  {
    hide Crc, DifferByBurst;
    BurstChangesCrc(crc as bv32, a, b);
    BvRoundTrip(Crc(crc as bv32, a));
    BvRoundTrip(Crc(crc as bv32, b));
  }

  /** `gg_update_crc` on unsigned integers. */
  method UpdateCrcU32(table: seq<bv32>, crc: uint32, buf: bytes) returns (r: uint32)
    requires IsCrcTable(table)
    ensures r == CrcU32(crc, buf)
  {
    hide Crc;
    var c := UpdateCrc(table, crc as bv32, buf);
    return c as int;
  }
}
