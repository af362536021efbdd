/** The table-driven CRC-24Q routine, proved against the shift register of module Crc24. */
module CrcTable {
  import opened BitSeq
  import opened Crc24

  const TOP24: nat := 0x1000000

  /** Entry `i` holds the register that results from shifting byte `i` through from the top. */
  ghost predicate IsTable(t: seq<nat>) {
    && |t| == 256
    && forall i :: 0 <= i < 256 ==> t[i] < TOP24 && Bits(t[i], 24) == Entry(i)
  }

  ghost function Entry(i: nat): Reg {
    ShiftN(Bits(i, 8) + Zeros(16), 8)
  }

  lemma Half24(c: nat)
    requires c < TOP24
    ensures Bits(2 * c, 24) == Bits(c, 24)[1..] + [false]
  {
    BitsSplit(c, 1, 23);
    BitsSplit(2 * c, 23, 1);
    LowBits(c);
    assert Bits(c, 24)[1..] == Bits(c, 23);
  }

  lemma TopBit(c: nat)
    requires c < TOP24
    ensures Bits(c, 24)[0] == (2 * c >= TOP24)
  {
    hide Bits, Shr;
    BitsAt(c, 24, 0);
    Shifts(c);
    assert c / 0x80_0000 < 2;
  }

  lemma LowBits(c: nat)
    ensures Shr(2 * c, 1) == c
    ensures Bits(c, 1) == [c % 2 == 1] && Bits(2 * c, 1) == [false]
  {
    assert Shr(2 * c, 1) == Shr(2 * c / 2, 0);
    assert Bits(c, 1) == Bits(c / 2, 0) + [c % 2 == 1];
    assert Bits(2 * c, 1) == Bits(c, 0) + [false];
  }

  /** Two numbers with the same top bit cancel below it. */
  lemma {:induction false} XorIntCancel(a: nat, b: nat, n: nat)
    requires Pow2(n) <= a < Pow2(n + 1) && Pow2(n) <= b < Pow2(n + 1)
    ensures XorInt(a, b) < Pow2(n)
  {
    XorIntStep(a, b);
    if n != 0 {
      XorIntCancel(a / 2, b / 2, n - 1);
    }
  }

  lemma Feedback(c: nat)
    requires TOP24 <= c < 2 * TOP24
    ensures XorInt(c, 0x1864CFB) < TOP24
    ensures Bits(XorInt(c, 0x1864CFB), 24) == Xor(Bits(c, 24), FEEDBACK)
  {
    Pow2Values();
    XorIntCancel(c, 0x1864CFB, 24);
    XorIntBits(c, 0x1864CFB, 24);
    GeneratorLow();
  }

  lemma GeneratorLow()
    ensures Bits(0x1864CFB, 24) == FEEDBACK
  {
    Pow2Values();
    assert 0x1864CFB % TOP24 == 0x864CFB % TOP24;
    BitsMod(0x1864CFB, 0x864CFB, 24);
  }

  lemma EntryStart(i: nat)
    requires i < 256
    ensures i * 0x10000 < TOP24 && Bits(i * 0x10000, 24) == Bits(i, 8) + Zeros(16)
  {
    hide Bits, Shr;
    BitsSplit(i * 0x10000, 8, 16);
    Shifts(i * 0x10000);
    Pow2Values();
    LowZero(i * 0x10000, 16);
  }

  /** One turn of the initialiser's inner loop. */
  function EntryTurn(c: nat): nat {
    if c * 2 / TOP24 % 2 == 1 then XorInt(c * 2, 0x1864CFB) else c * 2
  }

  lemma EntryTurnShifts(c: nat)
    requires c < TOP24
    ensures EntryTurn(c) < TOP24 && Bits(EntryTurn(c), 24) == Shift(Bits(c, 24))
  {
    hide Bits, XorInt;
    Half24(c);
    TopBit(c);
    if c * 2 >= TOP24 {
      assert c * 2 / TOP24 % 2 == 1;
      Feedback(2 * c);
    }
  }

  /** The package initialiser of the table; the inner loop computes one entry. */
  method BuildTable() returns (t: seq<nat>)
    ensures IsTable(t)
  {
    t := seq(256, _ => 0);
    var i := 0;
    while i < 256
      invariant 0 <= i <= 256 && |t| == 256
      invariant forall k :: 0 <= k < i ==> t[k] < TOP24 && Bits(t[k], 24) == Entry(k)
    {
      var c := BuildEntry(i);
      t := t[i := c];
      i := i + 1;
    }
  }

  method BuildEntry(i: nat) returns (c: nat)
    requires i < 256
    ensures c < TOP24 && Bits(c, 24) == Entry(i)
  {
    hide XorInt, Bits, Shift, Xor;
    EntryStart(i);
    c := i * 0x10000;
    var j := 0;
    while j < 8
      invariant 0 <= j <= 8 && c < TOP24
      invariant Entry(i) == ShiftN(Bits(c, 24), 8 - j)
    {
      EntryTurnShifts(c);
      ghost var next := EntryTurn(c);
      c := c * 2;
      if c / TOP24 % 2 == 1 {
        c := XorInt(c, 0x1864CFB);
      }
      assert c == next;
      j := j + 1;
    }
    c := c % TOP24;
  }

  function TableStep(t: seq<nat>, crc: nat, b: Byte): nat
    requires |t| == 256
  {
    XorInt(crc * 256 % TOP24, t[XorInt(crc / 0x10000, b) % 256])
  }

  /** One table step clocks one byte into the register. */
  lemma ByteStep(t: seq<nat>, crc: nat, b: Byte)
    requires IsTable(t) && crc < TOP24
    ensures TableStep(t, crc, b) < TOP24
    ensures Bits(TableStep(t, crc, b), 24) == Feed(Bits(crc, 24), Bits(b, 8))
  {
    hide Bits, XorInt, Feed, ShiftN;
    Index(crc, b);
    var k := XorInt(crc / 0x10000, b);
    assert k % 256 == k;
    Combine(crc * 256 % TOP24, t[k]);
    RegisterHigh(crc);
    RegisterLow(crc);
    ByteFeed(Bits(crc, 24), Bits(b, 8), Bits(k, 8));
  }

  lemma Combine(a: nat, b: nat)
    requires a < TOP24 && b < TOP24
    ensures XorInt(a, b) < TOP24 && Bits(XorInt(a, b), 24) == Xor(Bits(a, 24), Bits(b, 24))
  {
    Pow2Values();
    XorIntBound(a, b, 24);
    XorIntBits(a, b, 24);
  }

  lemma Index(crc: nat, b: Byte)
    requires crc < TOP24
    ensures XorInt(crc / 0x10000, b) < 256
    ensures Bits(XorInt(crc / 0x10000, b), 8) == Xor(Bits(crc / 0x10000, 8), Bits(b, 8))
  {
    Pow2Values();
    XorIntBound(crc / 0x10000, b, 8);
    XorIntBits(crc / 0x10000, b, 8);
  }

  lemma RegisterHigh(crc: nat)
    requires crc < TOP24
    ensures Bits(crc, 24)[..8] == Bits(crc / 0x10000, 8)
    ensures Bits(crc, 24)[8..] == Bits(crc, 16)
  {
    hide Bits, Shr;
    BitsSplit(crc, 8, 16);
    Shifts(crc);
  }

  lemma RegisterLow(crc: nat)
    requires crc < TOP24
    ensures Bits(crc * 256 % TOP24, 24) == Bits(crc, 16) + Zeros(8)
  {
    hide Bits, Shr;
    Low24(crc * 256);
    BitsSplit(crc * 256, 16, 8);
    Shifts(crc * 256);
    Pow2Values();
    LowZero(crc * 256, 8);
  }

  lemma Low24(v: nat)
    ensures Bits(v % TOP24, 24) == Bits(v, 24)
  {
    hide Bits;
    Pow2Values();
    BitsMod(v % TOP24, v, 24);
  }

  lemma LowZero(v: nat, n: nat)
    requires v % Pow2(n) == 0
    ensures Bits(v, n) == Zeros(n)
  {
    hide Bits;
    ModSmall(n);
    BitsMod(v, 0, n);
    BitsOfZero(n);
  }

  lemma ModSmall(n: nat)
    ensures 0 % Pow2(n) == 0
  {
  }

  lemma ByteFeed(r: Reg, b: seq<bool>, k: seq<bool>)
    requires |b| == |k| == 8 && k == Xor(r[..8], b)
    ensures Feed(r, b) == Xor(r[8..] + Zeros(8), ShiftN(k + Zeros(16), 8))
  {
    hide Feed, ShiftN;
    var lo := r[8..];
    FeedShort(r, b);
    assert Xor(r, b + Zeros(16)) == Xor(Zeros(8) + lo, k + Zeros(16));
    ShiftNXor(Zeros(8) + lo, k + Zeros(16), 8);
    ShiftNClear(lo, 8, 0);
    assert Zeros(8) + lo + Zeros(0) == Zeros(8) + lo;
  }

  lemma {:induction false} ShiftNClear(lo: seq<bool>, n: nat, z: nat)
    requires n + |lo| + z == 24
    ensures ShiftN(Zeros(n) + lo + Zeros(z), n) == lo + Zeros(z + n)
    decreases n
  {
    if n == 0 {
      assert Zeros(0) + lo == lo;
    } else {
      var r := Zeros(n) + lo + Zeros(z);
      assert !r[0];
      assert Shift(r) == Zeros(n - 1) + lo + Zeros(z + 1);
      hide Shift;
      ShiftNClear(lo, n - 1, z + 1);
    }
  }

  method Crc24q(t: seq<nat>, data: seq<Byte>) returns (crc: nat)
    requires IsTable(t)
    ensures crc < TOP24 && Bits(crc, 24) == Crc(data)
  {
    hide Bits, TableStep;
    crc := 0;
    BitsOfZero(24);
    var i := 0;
    assert data[..0] == [];
    while i < |data|
      invariant 0 <= i <= |data| && crc < TOP24
      invariant Bits(crc, 24) == Crc(data[..i])
    {
      ByteStep(t, crc, data[i]);
      CrcSnoc(data[..i], data[i]);
      assert data[..i + 1] == data[..i] + [data[i]];
      crc := TableStep(t, crc, data[i]);
      i := i + 1;
    }
    assert data[..i] == data;
  }

  lemma CrcSnoc(d: seq<Byte>, b: Byte)
    ensures Crc(d + [b]) == Feed(Crc(d), Bits(b, 8))
  {
    DataBitsConcat(d, [b]);
    DataBitsOne(b);
    FeedConcat(Zeros(24), DataBits(d), Bits(b, 8));
  }

  // ---- the three checksum bytes of a frame

  /** Comparing the checksum as a number is comparing it as three bytes. */
  lemma CheckBytes(t: seq<Byte>, crc: nat, got: nat)
    requires |t| == 3 && crc < TOP24
    requires got == t[0] as nat * 0x10000 + t[1] as nat * 0x100 + t[2] as nat
    ensures crc == got <==> Bits(crc, 24) == DataBits(t)
  {
    hide Bits, DataBits;
    ThreeBytes(t, got);
    if Bits(crc, 24) == Bits(got, 24) {
      SameBits24(crc, got);
    }
  }

  lemma SameBits24(a: nat, b: nat)
    requires a < TOP24 && b < TOP24 && Bits(a, 24) == Bits(b, 24)
    ensures a == b
  {
    hide Bits, Value, Pow2;
    Pow2Values();
    ValueOfBits(a, 24);
    ValueOfBits(b, 24);
  }
}
