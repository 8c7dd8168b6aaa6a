/** The checksum of thin pool metadata blocks (libfies-dmthin/crc.c). */
module Crc32c {

  /** The polynomial of section 12.1 of RFC 3720, and the same with its bits reversed. */
  const POLYNOMIAL: bv32 := 0x1EDC6F41
  const REVERSED: bv32 := 0x82F63B78

  // ----- operations on registers, with names that keep proofs away from single bits

  function Xor(a: bv32, b: bv32): bv32 {
    a ^ b
  }

  function Half(c: bv32): bv32 {
    c >> 1
  }

  predicate Even(c: bv32) {
    c & 1 == 0
  }

  function LowBit(c: bv32): bv32 {
    c & 1
  }

  // ----- the shift register, one message bit at a time

  /** Shifts one message bit, 0 or 1, into the register. */
  function ShiftIn(register: bv32, bit: bv32): bv32 {
    (register >> 1) ^ (if (register & 1) ^ bit == 1 then REVERSED else 0)
  }

  /** Shifts in the lowest `n` bits of a byte, the lowest first. */
  function ShiftInBits(register: bv32, bits: bv32, n: nat): bv32
    decreases n
  {
    if n == 0 then register else ShiftInBits(ShiftIn(register, LowBit(bits)), Half(bits), n - 1)
  }

  /** The register after a message; section 12.1 of RFC 3720 would complement the result. */
  function Register(register: bv32, data: seq<bv8>): bv32
    decreases |data|
  {
    if data == [] then register
    else ShiftInBits(Register(register, data[..|data| - 1]), data[|data| - 1] as bv32, 8)
  }

  /** A message bit that differs from the lowest bit of the register adds the polynomial. */
  lemma ShiftInOther(register: bv32, bit: bv32)
    requires bit <= 1 && register & 1 != bit
    ensures ShiftIn(register, bit) == (register >> 1) ^ 0x82F6_3B78
  {
    OneBit(register);
    Differ(register & 1, bit);
  }

  lemma ShiftInSame(register: bv32)
    ensures ShiftIn(register, register & 1) == register >> 1
  {
    SelfCancels(register & 1);
    AddsNothing(register >> 1);
  }

  lemma SelfCancels(a: bv32)
    ensures a ^ a == 0
  {
  }

  lemma AddsNothing(a: bv32)
    ensures a ^ 0 == a
  {
  }

  lemma OneBit(register: bv32)
    ensures register & 1 <= 1
  {
  }

  lemma Differ(a: bv32, b: bv32)
    requires a <= 1 && b <= 1
    ensures a ^ b == 1 <==> a != b
  {
  }

  /** The bits of a byte go in from the lowest to the highest. */
  lemma {:induction false} EightBits(register: bv32, byte: bv32)
    ensures var r0 := ShiftIn(register, byte & 1);
            var r1 := ShiftIn(r0, (byte >> 1) & 1);
            var r2 := ShiftIn(r1, (byte >> 2) & 1);
            var r3 := ShiftIn(r2, (byte >> 3) & 1);
            var r4 := ShiftIn(r3, (byte >> 4) & 1);
            var r5 := ShiftIn(r4, (byte >> 5) & 1);
            var r6 := ShiftIn(r5, (byte >> 6) & 1);
            ShiftInBits(register, byte, 8) == ShiftIn(r6, (byte >> 7) & 1)
  {
    hide ShiftIn;
  }

  /** The bytes of a message go in one after the other. */
  lemma {:induction false} RegisterOfMore(register: bv32, a: seq<bv8>, b: seq<bv8>)
    ensures Register(register, a + b) == Register(Register(register, a), b)
    decreases |b|
  {
    hide ShiftInBits;
    if b == [] {
      assert a + b == a;
    } else {
      var n := |b| - 1;
      assert (a + b)[..|a| + n] == a + b[..n];
      RegisterOfMore(register, a, b[..n]);
    }
  }

  // ----- the table

  /** One step without a message bit, as the table is built. */
  function Step(c: bv32): bv32 {
    (c >> 1) ^ ((0 - (c & 1)) & REVERSED)
  }

  function Steps(c: bv32, n: nat): bv32
    decreases n
  {
    if n == 0 then c else Steps(Step(c), n - 1)
  }

  /** Bits above the lowest one only move down. */
  lemma StepSplits(high: bv32, low: bv32)
    requires Even(high)
    ensures Step(Xor(high, low)) == Xor(Half(high), Step(low))
  {
    if low & 1 == 1 {
      OddSplits(high, low);
    } else {
      EvenSplits(high, low);
    }
  }

  lemma OddSplits(high: bv32, low: bv32)
    requires high & 1 == 0 && low & 1 == 1
    ensures Step(high ^ low) == (high >> 1) ^ Step(low)
  {
    StepIsOdd(low);
    assert (high ^ low) & 1 == 1;
    StepIsOdd(high ^ low);
    hide Step;
    BitsApart(high, low);
    Swapped(high >> 1, low >> 1, REVERSED);
  }

  lemma EvenSplits(high: bv32, low: bv32)
    requires high & 1 == 0 && low & 1 != 1
    ensures Step(high ^ low) == (high >> 1) ^ Step(low)
  {
    StepIsEven(low);
    assert (high ^ low) & 1 != 1;
    StepIsEven(high ^ low);
    hide Step;
    BitsApart(high, low);
  }

  lemma BitsApart(a: bv32, b: bv32)
    ensures (a ^ b) >> 1 == (a >> 1) ^ (b >> 1) && (a ^ b) & 1 == (a & 1) ^ (b & 1)
  {
  }

  lemma Swapped(a: bv32, b: bv32, c: bv32)
    ensures (a ^ b) ^ c == a ^ (b ^ c) == (a ^ c) ^ b
  {
  }

  lemma StepIsOdd(c: bv32)
    requires c & 1 == 1
    ensures Step(c) == (c >> 1) ^ REVERSED
  {
    assert (0 - (c & 1)) & REVERSED == REVERSED;
  }

  lemma StepIsEven(c: bv32)
    requires c & 1 != 1
    ensures Step(c) == c >> 1
  {
    assert c & 1 == 0;
  }

  function TableEntry(i: nat): bv32
    requires i < 256
  {
    Steps(i as bv32, 8)
  }

  /** Which entry one byte of the message selects. */
  function Index(byte: bv8, crc: bv32): (r: nat)
    ensures r < 256
  {
    ((byte as bv32 ^ crc) & 0xFF) as int
  }

  /** The register after one byte that selected `entry`. */
  function Next(crc: bv32, entry: bv32): bv32 {
    (crc >> 8) ^ entry
  }

  lemma StepTakesRawBit(register: bv32, bits: bv32)
    ensures ShiftIn(register, bits & 1) ^ (bits >> 1) == Step(register ^ bits)
  {
    BitsApart(register, bits);
    if (register & 1) ^ (bits & 1) == 1 {
      StepIsOdd(register ^ bits);
      Swapped(register >> 1, bits >> 1, REVERSED);
    } else {
      StepIsEven(register ^ bits);
    }
  }

  lemma StepTakesBit(register: bv32, bits: bv32)
    ensures Xor(ShiftIn(register, LowBit(bits)), Half(bits)) == Step(Xor(register, bits))
  {
    hide ShiftIn, Step, Xor, Half, LowBit;
    StepTakesRawBit(register, bits);
    Names(ShiftIn(register, bits & 1), bits >> 1);
    Names(register, bits);
  }

  lemma Names(a: bv32, b: bv32)
    ensures Xor(a, b) == a ^ b && Half(b) == b >> 1 && LowBit(b) == b & 1
  {
  }

  /** Moved down by `n` bits, one at a time. */
  function Down(c: bv32, n: nat): bv32
    decreases n
  {
    if n == 0 then c else Down(Half(c), n - 1)
  }

  /** The lowest `n` bits are zero. */
  predicate EvenFor(c: bv32, n: nat)
    decreases n
  {
    n == 0 || (Even(c) && EvenFor(Half(c), n - 1))
  }

  /** `n` steps of bits that stay above the lowest one: they only move down. */
  lemma {:induction false} StepsSplit(high: bv32, low: bv32, n: nat)
    requires EvenFor(high, n)
    ensures Steps(Xor(high, low), n) == Xor(Down(high, n), Steps(low, n))
    decreases n
  {
    hide Step, Xor, Half, Even;
    if n > 0 {
      StepSplits(high, low);
      StepsSplit(Half(high), Step(low), n - 1);
    }
  }

  lemma {:induction false} DownByEight(c: bv32)
    ensures Down(c, 8) == c >> 8
    ensures c & 0xFF == 0 ==> EvenFor(c, 8)
  {
    hide Half, Even;
    var c2 := Half(Half(c));
    var c4 := Half(Half(c2));
    var c6 := Half(Half(c4));
    DownTwice(c6, 2);
    DownTwice(c4, 4);
    DownTwice(c2, 6);
    DownTwice(c, 8);
    ShiftsAdd(c);
  }

  lemma DownTwice(c: bv32, n: nat)
    requires n >= 2
    ensures Down(c, n) == Down(Half(Half(c)), n - 2)
    ensures EvenFor(c, n) <==> Even(c) && Even(Half(c)) && EvenFor(Half(Half(c)), n - 2)
  {
    hide Half, Even;
  }

  lemma ShiftsAdd(c: bv32)
    ensures Half(Half(Half(Half(Half(Half(Half(Half(c)))))))) == c >> 8
    ensures c & 0xFF == 0 ==>
              && Even(c) && Even(Half(c)) && Even(Half(Half(c))) && Even(Half(Half(Half(c))))
              && Even(Half(Half(Half(Half(c))))) && Even(Half(Half(Half(Half(Half(c))))))
              && Even(Half(Half(Half(Half(Half(Half(c)))))))
              && Even(Half(Half(Half(Half(Half(Half(Half(c))))))))
  {
  }

  lemma HighAndLow(c: bv32)
    ensures Xor(c & 0xFFFF_FF00, c & 0xFF) == c && (c & 0xFFFF_FF00) & 0xFF == 0 && (c & 0xFFFF_FF00) >> 8 == c >> 8
  {
  }

  /** Eight steps at once, with the table entry of the low byte. */
  lemma EightSteps(c: bv32)
    ensures Steps(c, 8) == Xor(c >> 8, Steps(c & 0xFF, 8))
  {
    hide Steps, Down, EvenFor, Xor;
    var high, low := c & 0xFFFF_FF00, c & 0xFF;
    HighAndLow(c);
    DownByEight(high);
    StepsSplit(high, low, 8);
  }

  /** Shifting message bits in is the same as adding them to the register first. */
  lemma {:induction false} BitsAreAdded(register: bv32, bits: bv32, n: nat)
    ensures Xor(ShiftInBits(register, bits, n), Down(bits, n)) == Steps(Xor(register, bits), n)
    decreases n
  {
    hide Step, ShiftIn, Xor, Half, LowBit;
    if n > 0 {
      StepTakesBit(register, bits);
      BitsAreAdded(ShiftIn(register, LowBit(bits)), Half(bits), n - 1);
    }
  }

  lemma ByteFacts(register: bv32, byte: bv32)
    requires byte < 256
    ensures byte >> 8 == 0 && Xor(register, byte) >> 8 == register >> 8
            && Xor(register, byte) & 0xFF == (byte ^ register) & 0xFF
  {
  }

  lemma XorZero(c: bv32)
    ensures Xor(c, 0) == c
  {
  }

  /** One byte through the table does what eight steps of the register do. */
  lemma {:induction false} ByteThroughTable(register: bv32, byte: bv32)
    requires byte < 256
    ensures ShiftInBits(register, byte, 8) == Xor(register >> 8, Steps((byte ^ register) & 0xFF, 8))
  {
    hide Steps, ShiftInBits, Down, Xor;
    BitsAreAdded(register, byte, 8);
    DownByEight(byte);
    EightSteps(Xor(register, byte));
    ByteFacts(register, byte);
    XorZero(ShiftInBits(register, byte, 8));
  }

  class Crc {
    const table: array<bv32>

    /** Either the whole table is built, or none of it. */
    ghost predicate Valid()
      reads table
    {
      table.Length == 256 && (Unbuilt() || Built())
    }

    ghost predicate Unbuilt()
      requires table.Length == 256
      reads table
    {
      forall i :: 0 <= i < 256 ==> table[i] == 0
    }

    ghost predicate Built()
      requires table.Length == 256
      reads table
    {
      forall i :: 0 <= i < 256 ==> table[i] == TableEntry(i)
    }

    constructor ()
      ensures Valid() && Unbuilt() && fresh(table)
    {
      table := new bv32[256](_ => 0);
    }

    /** The test for a missing table is right: entry 4 is zero exactly as long as nothing was built. */
    lemma EntryFourTells()
      requires Valid()
      ensures table[4] == 0 <==> Unbuilt()
      ensures table[4] != 0 <==> Built()
    {
      FourIsNotZero();
      assert (4 as bv32) as int == 4;
    }

    method Build()
      requires table.Length == 256
      modifies table
      ensures Built()
    {
      hide Steps, Step;
      var i := 0;
      while i != 256
        invariant i <= 256
        invariant forall k :: 0 <= k < i ==> table[k] == TableEntry(k)
        decreases 256 - i
      {
        var c := i as bv32;
        var j := 0;
        while j != 8
          invariant j <= 8 && Steps(c, 8 - j) == TableEntry(i)
          decreases 8 - j
          modifies {}
        {
          MoreSteps(c, 8 - j);
          c := (c >> 1) ^ ((0 - (c & 1)) & REVERSED);
          j := j + 1;
        }
        NoSteps(c);
        table[i] := c;
        i := i + 1;
      }
    }

    method Checksum(data: seq<bv8>) returns (crc: bv32)
      requires Valid()
      modifies table
      ensures Valid() && Built()
      ensures crc == Register(0xFFFF_FFFF, data)
    {
      hide Steps, ShiftInBits, TableEntry, Index, Next;
      EntryFourTells();
      if table[4] == 0 {
        Build();
      }
      crc := 0xFFFF_FFFF;
      var i := 0;
      while i != |data|
        invariant i <= |data| && crc == Register(0xFFFF_FFFF, data[..i])
        decreases |data| - i
        modifies {}
      {
        assert data[..i + 1][..i] == data[..i];
        OneByte(crc, data[i]);
        crc := Next(crc, table[Index(data[i], crc)]);
        i := i + 1;
      }
      assert data[..|data|] == data;
    }
  }

  lemma FourIsNotZero()
    ensures Steps(4, 8) != 0
  {
  }

  lemma {:induction false} NoSteps(c: bv32)
    ensures Steps(c, 0) == c
  {
  }

  lemma MoreSteps(c: bv32, n: nat)
    requires n > 0
    ensures Steps((c >> 1) ^ ((0 - (c & 1)) & REVERSED), n - 1) == Steps(c, n)
  {
  }

  lemma SameNumber(a: bv32)
    requires a < 256
    ensures (a as int) < 256 && (a as int) as bv32 == a
  {
  }

  lemma SmallIndex(byte: bv8, crc: bv32)
    ensures (byte as bv32 ^ crc) & 0xFF < 256 && byte as bv32 < 256
  {
  }

  lemma {:induction false} EntryOf(a: bv32)
    requires a < 256
    ensures (a as int) < 256 && TableEntry(a as int) == Steps(a, 8)
  {
    hide Steps;
    SameNumber(a);
  }

  lemma {:induction false} IndexIs(byte: bv8, crc: bv32)
    ensures TableEntry(Index(byte, crc)) == Steps((byte as bv32 ^ crc) & 0xFF, 8)
  {
    hide Steps, TableEntry;
    SmallIndex(byte, crc);
    EntryOf((byte as bv32 ^ crc) & 0xFF);
  }

  lemma NextIs(crc: bv32, entry: bv32)
    ensures Next(crc, entry) == Xor(crc >> 8, entry)
  {
  }

  /** One round of the loop is one byte of the message. */
  lemma {:induction false} OneByte(crc: bv32, byte: bv8)
    ensures ShiftInBits(crc, byte as bv32, 8) == Next(crc, TableEntry(Index(byte, crc)))
  {
    hide Steps, ShiftInBits, TableEntry, Xor, Index, Next;
    SmallIndex(byte, crc);
    ByteThroughTable(crc, byte as bv32);
    IndexIs(byte, crc);
    NextIs(crc, Steps((byte as bv32 ^ crc) & 0xFF, 8));
  }

  // ----- the polynomial

  /** The lowest `n` bits of `c` in reverse order, in front of the bits of `r`. */
  function Reverse(c: bv32, r: bv32, n: nat): bv32
    decreases n
  {
    if n == 0 then r else Reverse(c >> 1, (r << 1) | (c & 1), n - 1)
  }

  /** The checksum of the nine digits "123456789" is 0xE306_9283, once it is complemented. */
  lemma {:induction false} KnownChecksum()
    ensures Register(0xFFFF_FFFF, [0x31, 0x32, 0x33, 0x34, 0x35, 0x36, 0x37, 0x38, 0x39]) == 0xFFFF_FFFF - 0xE306_9283
  {
    hide Register, ShiftInBits;
    NoBytes(0xFFFF_FFFF);
    var d0: seq<bv8> := [];
    EightBits(0xFFFF_FFFF, 0x31);
    OneMore(d0, 0xFFFF_FFFF, 0x31, 0x6F0A_661C);
    var d1 := d0 + [0x31];
    EightBits(0x6F0A_661C, 0x32);
    OneMore(d1, 0x6F0A_661C, 0x32, 0x8CAA_3B9F);
    var d2 := d1 + [0x32];
    EightBits(0x8CAA_3B9F, 0x33);
    OneMore(d2, 0x8CAA_3B9F, 0x33, 0xEF84_D04D);
    var d3 := d2 + [0x33];
    EightBits(0xEF84_D04D, 0x34);
    OneMore(d3, 0xEF84_D04D, 0x34, 0x09C5_0B11);
    var d4 := d3 + [0x34];
    EightBits(0x09C5_0B11, 0x35);
    OneMore(d4, 0x09C5_0B11, 0x35, 0xE72E_DCCA);
    var d5 := d4 + [0x35];
    EightBits(0xE72E_DCCA, 0x36);
    OneMore(d5, 0xE72E_DCCA, 0x36, 0xBECA_8E79);
    var d6 := d5 + [0x36];
    EightBits(0xBECA_8E79, 0x37);
    OneMore(d6, 0xBECA_8E79, 0x37, 0xEDBD_6815);
    var d7 := d6 + [0x37];
    EightBits(0xEDBD_6815, 0x38);
    OneMore(d7, 0xEDBD_6815, 0x38, 0x9F78_7F65);
    var d8 := d7 + [0x38];
    EightBits(0x9F78_7F65, 0x39);
    OneMore(d8, 0x9F78_7F65, 0x39, 0x1CF9_6D7C);
    var d9 := d8 + [0x39];
    assert d9 == [0x31, 0x32, 0x33, 0x34, 0x35, 0x36, 0x37, 0x38, 0x39];
  }

  lemma {:induction false} NoBytes(register: bv32)
    ensures Register(register, []) == register
  {
  }

  lemma {:induction false} OneMore(data: seq<bv8>, before: bv32, byte: bv8, after: bv32)
    requires Register(0xFFFF_FFFF, data) == before && ShiftInBits(before, byte as bv32, 8) == after
    ensures Register(0xFFFF_FFFF, data + [byte]) == after
  {
    hide ShiftInBits;
  }

  /** The constant of the code is the polynomial of RFC 3720, lowest bit first. */
  lemma ReversedPolynomial()
    ensures Reverse(POLYNOMIAL, 0, 32) == REVERSED
  {
    assert Reverse(POLYNOMIAL, 0, 32) == Reverse(0x1EDC6F, 0x82, 24);
    assert Reverse(0x1EDC6F, 0x82, 24) == Reverse(0x1EDC, 0x82F6, 16);
    assert Reverse(0x1EDC, 0x82F6, 16) == Reverse(0x1E, 0x82F63B, 8);
  }
}
