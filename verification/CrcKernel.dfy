/** Which changes at the end of a message cancel against a change of the CRC behind it. */
module CrcKernel {
  import opened Common
  import opened ByteBits
  import opened Crc32

  // ----- shifts and inverse shifts, bit by bit

  lemma FourShifts(c: bv32)
    ensures Shifts(c, 4) == Shift(Shift(Shift(Shift(c))))
  {
    hide Shift;
    assert Shifts(Shift(Shift(c)), 2) == Shift(Shift(Shift(Shift(c))));
  }

  lemma EightShifts(c: bv32)
    ensures Shifts(c, 8) == Shift(Shift(Shift(Shift(Shift(Shift(Shift(Shift(c))))))))
  {
    hide Shift, Shifts;
    ShiftsAdd(c, 4, 4);
    FourShifts(c);
    FourShifts(Shifts(c, 4));
  }

  lemma SixteenShifts(c: bv32)
    ensures Shifts(c, 16) ==
      var d := Shift(Shift(Shift(Shift(Shift(Shift(Shift(Shift(c))))))));
      Shift(Shift(Shift(Shift(Shift(Shift(Shift(Shift(d))))))))
  {
    hide *;
    ShiftsAdd(c, 8, 8);
    EightShifts(c);
    EightShifts(Shifts(c, 8));
  }

  lemma ShiftsByBits()
    ensures forall c: bv32 :: Shift(c) == if c & 1 == 1 then 0xEDB8_8320 ^ (c >> 1) else c >> 1
  {
    forall c: bv32 ensures Shift(c) == if c & 1 == 1 then 0xEDB8_8320 ^ (c >> 1) else c >> 1 { ShiftIs(c); }
  }

  /** Undoes a shift: the top bit tells whether the polynomial was subtracted. */
  function Back(c: bv32): bv32 {
    if c & 0x8000_0000 == 0 then c << 1 else ((c ^ POLYNOMIAL) << 1) | 1
  }

  function Backs(c: bv32, k: nat): bv32
    decreases k
  {
    if k == 0 then c else Back(Backs(c, k - 1))
  }

  lemma BackUndoes(c: bv32)
    ensures Back(Shift(c)) == c
  {}

  lemma BacksByBits()
    ensures forall c: bv32 :: Back(c) == if c & 0x8000_0000 == 0 then c << 1 else ((c ^ 0xEDB8_8320) << 1) | 1
  {}

  lemma {:induction false} BacksUndo(c: bv32, k: nat)
    ensures Backs(Shifts(c, k), k) == c
    decreases k
  {
    hide Shift, Back;
    if k > 0 {
      BacksUndo(Shift(c), k - 1);
      BackUndoes(c);
    }
  }

  lemma EightBacks(c: bv32, k: nat)
    ensures Backs(c, k + 8) == Back(Back(Back(Back(Back(Back(Back(Back(Backs(c, k)))))))))
  {
    hide Back;
    assert Backs(c, k + 2) == Back(Back(Backs(c, k)));
    assert Backs(c, k + 4) == Back(Back(Backs(c, k + 2)));
    assert Backs(c, k + 6) == Back(Back(Backs(c, k + 4)));
  }

  lemma BacksOfZero(c: bv32, k: nat)
    ensures Backs(c, 0) == c && Backs(0, k) == 0
  {}

  lemma BacksByBytes(h: bv32)
    ensures Backs(h, 24) ==
      var c := Back(Back(Back(Back(Back(Back(Back(Back(h))))))));
      var d := Back(Back(Back(Back(Back(Back(Back(Back(c))))))));
      Back(Back(Back(Back(Back(Back(Back(Back(d))))))))
  {
    hide *;
    EightBacks(h, 0);
    EightBacks(h, 8);
    EightBacks(h, 16);
    BacksOfZero(h, 0);
  }

  // ----- the kernel: message changes whose CRC change leaves as many low bytes alone

  lemma OneByte(w: bv32)
    requires w < 0x100 && Shifts(w, 8) & 0xFF == 0
    ensures w == 0
  {
    hide *;
    ShiftsByBits();
    EightShifts(w);
  }

  lemma TwoBytes(w: bv32)
    requires w < 0x1_0000 && Shifts(w, 16) & 0xFFFF == 0
    ensures w == 0 || w == 0xD861
  {
    hide *;
    ShiftsByBits();
    SixteenShifts(w);
  }

  lemma TheTwoBytes()
    ensures Shifts(0xD861, 16) == 0xF4EE_0000
  {
    hide Shifts;
    SixteenShifts(0xD861);
  }

  lemma ThreeBytes(w: bv32)
    requires w < 0x100_0000 && Shifts(w, 24) & 0xFF_FFFF == 0
    ensures w == 0
  {
    hide *;
    BacksUndo(w, 24);
    ThreeBytesBack(Shifts(w, 24));
    BacksOfZero(0, 24);
  }

  lemma ThreeBytesBack(h: bv32)
    requires h & 0xFF_FFFF == 0 && Backs(h, 24) < 0x100_0000
    ensures h == 0
  {
    hide *;
    BacksByBits();
    BacksByBytes(h);
  }

  // ----- words and bytes

  /** The bytes of a word, highest first. */
  datatype Quad = Quad(a: bv8, b: bv8, c: bv8, d: bv8)

  function Split(v: bv32): Quad {
    Quad(((v >> 24) & 0xFF) as bv8, ((v >> 16) & 0xFF) as bv8, ((v >> 8) & 0xFF) as bv8, (v & 0xFF) as bv8)
  }

  function ByteOf(v: bv8): (b: byte) {
    Bv8RoundTrip(v);
    v as int
  }

  /** The CRC as it is written. */
  function CrcBytes(v: bv32): (r: bytes)
    ensures |r| == 4
  {
    var q := Split(v);
    [ByteOf(q.a), ByteOf(q.b), ByteOf(q.c), ByteOf(q.d)]
  }

  lemma Joined(v: bv32)
    ensures var q := Split(v); v == (q.a as bv32 << 24) | (q.b as bv32 << 16) | (q.c as bv32 << 8) | (q.d as bv32)
  {}

  lemma JoinWeighs(a: bv8, b: bv8, c: bv8, d: bv8)
    ensures ((a as bv32 << 24) | (b as bv32 << 16) | (c as bv32 << 8) | (d as bv32)) as int ==
      (a as int) * 0x100_0000 + (b as int) * 0x1_0000 + (c as int) * 0x100 + (d as int)
  {
    hide *;
  }

  /** The bytes of a word weigh what the word does. */
  lemma CrcBytesWeigh(v: bv32)
    ensures var b: seq<int> := CrcBytes(v); v as int == b[0] * 0x100_0000 + b[1] * 0x1_0000 + b[2] * 0x100 + b[3]
  {
    hide Split;
    Joined(v);
    var q := Split(v);
    JoinWeighs(q.a, q.b, q.c, q.d);
  }

  lemma SameByteOf(u: bv8, v: bv8)
    requires ByteOf(u) == ByteOf(v)
    ensures u == v
  {
    Bv8RoundTrip(u);
    Bv8RoundTrip(v);
  }

  /** A byte with some bits flipped. */
  function Flip(b: byte, m: bv8): byte {
    ByteOf((b as bv8) ^ m)
  }

  lemma FlipIs(b: byte, m: bv8)
    ensures Bv(Flip(b, m)) == Xor(Bv(b), m as bv32)
  {
    Bv8RoundTrip((b as bv8) ^ m);
  }

  lemma FlipByteOf(v: bv8, m: bv8)
    ensures Flip(ByteOf(v), m) == ByteOf(v ^ m)
  {
    Bv8RoundTrip(v);
  }

  /** Words that agree in their last bytes differ by a word with zeros there. */
  lemma SameLowBytes(u: bv32, v: bv32)
    ensures CrcBytes(u)[3] == CrcBytes(v)[3] ==> Xor(u, v) & 0xFF == 0
    ensures CrcBytes(u)[3] == CrcBytes(v)[3] && CrcBytes(u)[2] == CrcBytes(v)[2] ==> Xor(u, v) & 0xFFFF == 0
    ensures CrcBytes(u)[3] == CrcBytes(v)[3] && CrcBytes(u)[2] == CrcBytes(v)[2] && CrcBytes(u)[1] == CrcBytes(v)[1] ==>
      Xor(u, v) & 0xFF_FFFF == 0
  {
    hide ByteOf, Split, Xor;
    var p, q := Split(u), Split(v);
    if CrcBytes(u)[3] == CrcBytes(v)[3] { SameByteOf(p.d, q.d); }
    if CrcBytes(u)[2] == CrcBytes(v)[2] { SameByteOf(p.c, q.c); }
    if CrcBytes(u)[1] == CrcBytes(v)[1] { SameByteOf(p.b, q.b); }
    SplitAgrees(u, v);
  }

  lemma SplitAgrees(u: bv32, v: bv32)
    ensures Split(u).d == Split(v).d ==> Xor(u, v) & 0xFF == 0
    ensures Split(u).d == Split(v).d && Split(u).c == Split(v).c ==> Xor(u, v) & 0xFFFF == 0
    ensures Split(u).d == Split(v).d && Split(u).c == Split(v).c && Split(u).b == Split(v).b ==>
      Xor(u, v) & 0xFF_FFFF == 0
  {}

  /** Flipping the two high bytes of a word flips its first two bytes. */
  lemma HighBytesFlipped(v: bv32)
    ensures CrcBytes(Xor(v, 0xF4EE_0000)) ==
      [Flip(CrcBytes(v)[0], 0xF4), Flip(CrcBytes(v)[1], 0xEE), CrcBytes(v)[2], CrcBytes(v)[3]]
  {
    hide ByteOf, Split, Xor, Flip;
    var q := Split(v);
    FlipByteOf(q.a, 0xF4);
    FlipByteOf(q.b, 0xEE);
    SplitFlipped(v);
  }

  lemma SplitFlipped(v: bv32)
    ensures Split(Xor(v, 0xF4EE_0000)) == Quad(Split(v).a ^ 0xF4, Split(v).b ^ 0xEE, Split(v).c, Split(v).d)
  {}

  // ----- the words of changed messages

  lemma NotXor(a: bv32, b: bv32)
    ensures Xor(Not(a), Not(b)) == Xor(a, b)
  {}

  /** How the CRC changes when the last bytes do. */
  lemma CrcDelta(crc: bv32, p: bytes, x: bytes, y: bytes)
    requires |x| == |y| <= 4
    ensures Xor(Crc(crc, p + x), Crc(crc, p + y)) == Shifts(Xor(Word(x), Word(y)), 8 * |x|)
  {
    hide *;
    var c := Feed(Not(crc), p);
    CrcIs(crc, p + x);
    CrcIs(crc, p + y);
    FeedConcat(Not(crc), p, x);
    FeedConcat(Not(crc), p, y);
    NotXor(Feed(c, x), Feed(c, y));
    FeedWord(c, x);
    FeedWord(c, y);
    ShiftsLinear(Xor(c, Word(x)), Xor(c, Word(y)), 8 * |x|);
    XorCancel(c, Word(x), Word(y));
  }

  lemma CrcIs(crc: bv32, data: bytes)
    ensures Crc(crc, data) == Not(Feed(Not(crc), data))
  {}

  lemma SmallXor(a: bv32, b: bv32)
    ensures a < 0x100 && b < 0x100 ==> Xor(a, b) < 0x100
    ensures a < 0x1_0000 && b < 0x1_0000 ==> Xor(a, b) < 0x1_0000
    ensures a < 0x100_0000 && b < 0x100_0000 ==> Xor(a, b) < 0x100_0000
    ensures a < 0x100 ==> a < 0x1_0000
    ensures a < 0x1_0000 ==> a < 0x100_0000
  {}

  /** A word of up to three bytes is as small as it should be. */
  lemma {:induction false} WordSmall(x: bytes)
    requires |x| <= 3
    ensures |x| == 0 ==> Word(x) == 0
    ensures |x| <= 1 ==> Word(x) < 0x100
    ensures |x| <= 2 ==> Word(x) < 0x1_0000
    ensures Word(x) < 0x100_0000
    decreases |x|
  {
    hide *;
    if x == [] {
      WordOfNone();
    } else {
      var init, b := x[..|x| - 1], Bv(x[|x| - 1]);
      WordSmall(init);
      WordStep(x);
      ByteBelow(x[|x| - 1]);
      UpIs(b);
      Up8Grows(b);
      Up8Grows(Up8(b));
      SmallXor(b, 0);
      SmallXor(Up8(b), 0);
      SmallXor(Word(init), Up(b, |x| - 1));
      SmallXor(Word(init), 0);
    }
  }

  /** Different messages have different words. */
  lemma SameWord(x: bytes, y: bytes)
    requires |x| == |y| <= 4 && Word(x) == Word(y)
    ensures x == y
  {
    hide *;
    FeedWord(0, x);
    FeedWord(0, y);
    BurstInjective(0, x, y);
  }

  lemma WordOfTwo(a: byte, b: byte)
    ensures Word([a, b]) == Xor(Bv(a), Up8(Bv(b)))
  {
    hide Xor, Up8, Bv, Word, Up;
    assert [a, b][..1] == [a] && [a][..0] == [];
    WordStep([a, b]);
    WordStep([a]);
    WordOfNone();
    UpIs(Bv(a));
    UpIs(Bv(b));
    XorZero(Bv(a));
  }

  /** The two-byte change that the CRC may hide. */
  lemma FlippedWord(a: byte, b: byte)
    ensures Word([Flip(a, 0x61), Flip(b, 0xD8)]) == Xor(Word([a, b]), 0xD861)
  {
    hide Xor, Up8, Bv, Word, Flip;
    WordOfTwo(a, b);
    WordOfTwo(Flip(a, 0x61), Flip(b, 0xD8));
    FlipIs(a, 0x61);
    FlipIs(b, 0xD8);
    TwoBytesFlipped(Bv(a), Bv(b));
  }

  lemma TwoBytesFlipped(a: bv32, b: bv32)
    ensures Xor(Xor(a, 0x61), Up8(Xor(b, 0xD8))) == Xor(Xor(a, Up8(b)), 0xD861)
  {}

  /**
    Between one and three bytes at the end of a message are changed, and the CRC keeps as many of its last
    bytes: then nothing was changed, or two bytes were, by the one pattern there is.
    */
  lemma OnlyPattern(crc: bv32, p: bytes, x: bytes, y: bytes)
    requires 1 <= |x| == |y| <= 3
    requires CrcBytes(Crc(crc, p + x))[4 - |x|..] == CrcBytes(Crc(crc, p + y))[4 - |x|..]
    ensures x == y || (|x| == 2 && y == [Flip(x[0], 0x61), Flip(x[1], 0xD8)])
  {
    hide *;
    var u, v := Crc(crc, p + x), Crc(crc, p + y);
    var w := Xor(Word(x), Word(y));
    CrcDelta(crc, p, x, y);
    SameTail(u, v, 4 - |x|);
    SameLowBytes(u, v);
    WordSmall(x);
    WordSmall(y);
    SmallXor(Word(x), Word(y));
    if |x| == 1 { OneByte(w); } else if |x| == 2 { TwoBytes(w); } else { ThreeBytes(w); }
    if w == 0 {
      XorCancel(Word(x), Word(x), Word(y));
      XorZero(Word(x));
      SameWord(x, y);
    } else {
      PatternOnly(x, y);
    }
  }

  lemma SameTail(u: bv32, v: bv32, k: nat)
    requires 1 <= k <= 3 && CrcBytes(u)[k..] == CrcBytes(v)[k..]
    ensures forall i :: k <= i < 4 ==> CrcBytes(u)[i] == CrcBytes(v)[i]
  {
    hide CrcBytes;
    forall i | k <= i < 4 ensures CrcBytes(u)[i] == CrcBytes(v)[i] {
      assert CrcBytes(u)[k..][i - k] == CrcBytes(v)[k..][i - k];
    }
  }

  lemma PatternOnly(x: bytes, y: bytes)
    requires |x| == |y| == 2 && Xor(Word(x), Word(y)) == 0xD861
    ensures y == [Flip(x[0], 0x61), Flip(x[1], 0xD8)]
  {
    hide *;
    var z := [Flip(x[0], 0x61), Flip(x[1], 0xD8)];
    assert x == [x[0], x[1]];
    FlippedWord(x[0], x[1]);
    XorCancel(Word(x), Word(x), Word(y));
    XorAssoc(Word(x), Word(x), Word(y));
    XorZero(Word(x));
    XorZero(Word(y));
    SameWord(y, z);
  }

  /** The pattern changes the CRC in its first two bytes only. */
  lemma PatternChanges(crc: bv32, p: bytes, a: byte, b: byte)
    ensures Crc(crc, p + [Flip(a, 0x61), Flip(b, 0xD8)]) == Xor(Crc(crc, p + [a, b]), 0xF4EE_0000)
  {
    hide *;
    var x, y := [a, b], [Flip(a, 0x61), Flip(b, 0xD8)];
    var u, v := Crc(crc, p + x), Crc(crc, p + y);
    CrcDelta(crc, p, x, y);
    FlippedWord(a, b);
    XorAssoc(Word(x), Word(x), 0xD861);
    XorZero(Word(x));
    XorZero(0xD861);
    TheTwoBytes();
    XorAssoc(u, u, v);
    XorZero(u);
    XorZero(v);
  }

  /** The pattern does change something. */
  lemma FlipChanges(b: byte, m: bv8)
    requires m != 0
    ensures Flip(b, m) != b
  {
    Bv8RoundTrip((b as bv8) ^ m);
    FlipsABit(b as bv8, m);
  }

  lemma FlipsABit(v: bv8, m: bv8)
    requires m != 0
    ensures v ^ m != v
  {}
}
