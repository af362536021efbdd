/** RTCM bit packing: the bit writer, the bit reader, and the two as inverses. */
module BitPacking {
  import opened BitSeq
  import Streams

  // ---- setting one bit of a byte

  /** `b | 1 << k` */
  function SetBit(b: Byte, k: nat): (r: Byte)
    requires k < 8
    ensures Bits(r, 8) == Bits(b, 8)[7 - k := true]
  {
    hide Bits, Shr;
    BitsAt(b, 8, 7 - k);
    if Shr(b, k) % 2 == 1 then
      assert Bits(b, 8)[7 - k];
      assert Bits(b, 8)[7 - k := true] == Bits(b, 8);
      b
    else
      Pow2Values();
      AddBit(b, 8, k);
      b + Pow2(k)
  }

  lemma {:induction false} AddBit(b: nat, n: nat, k: nat)
    requires k < n && b < Pow2(n) && Shr(b, k) % 2 == 0
    ensures b + Pow2(k) < Pow2(n)
    ensures Bits(b + Pow2(k), n) == Bits(b, n)[n - 1 - k := true]
    decreases k
  {
    if k == 0 {
      assert (b + 1) / 2 == b / 2;
    } else {
      AddBit(b / 2, n - 1, k - 1);
      assert (b + Pow2(k)) / 2 == b / 2 + Pow2(k - 1);
      assert Bits(b + Pow2(k), n) == Bits(b / 2 + Pow2(k - 1), n - 1) + [b % 2 == 1];
    }
  }

  // ---- fields

  /** One `Put` or `PutSigned` call. */
  datatype Field = Unsigned(v: nat, width: nat) | Signed(i: int, width: nat)

  /** What Go's 64-bit argument types can hold. */
  predicate InRange(f: Field) {
    match f
    case Unsigned(v, _) => v < U64
    case Signed(i, _) => -0x8000_0000_0000_0000 <= i < 0x8000_0000_0000_0000
  }

  /** A field as transmitted: two's complement, cut to its width. */
  function FieldBits(f: Field): (b: seq<bool>)
    ensures |b| == f.width
  {
    match f
    case Unsigned(v, w) => Bits(v, w)
    case Signed(i, w) => Bits(i % U64, w)
  }

  function FieldsBits(fs: seq<Field>): seq<bool> {
    if fs == [] then [] else FieldsBits(fs[..|fs| - 1]) + FieldBits(fs[|fs| - 1])
  }

  // ---- the writer

  /** A buffer exactly as long as the bits need, with the bits not yet written clear. */
  ghost predicate Packed(buf: seq<Byte>, bits: seq<bool>) {
    && |buf| == (|bits| + 7) / 8
    && DataBits(buf) == bits + Zeros(8 * |buf| - |bits|)
  }

  class BitWriter {
    var buf: seq<Byte>
    var n: nat
    ghost var written: seq<bool>

    ghost predicate Valid()
      reads this
    {
      |written| == n && Packed(buf, written)
    }

    constructor ()
      ensures Valid() && written == []
    {
      buf, n, written := [], 0, [];
    }

    method PutBit(bit: bool)
      requires Valid()
      modifies this
      ensures Valid() && written == old(written) + [bit]
    {
      hide Bits, DataBits;
      if n % 8 == 0 {
        AppendByte(buf, written);
        buf := buf + [0];
      }
      PackBit(buf, written, bit);
      if bit {
        buf := buf[n / 8 := SetBit(buf[n / 8], 7 - n % 8)];
      }
      n := n + 1;
      written := written + [bit];
    }

    method Put(v: nat, bits: nat)
      requires Valid()
      modifies this
      ensures Valid() && written == old(written) + Bits(v, bits)
    {
      hide Packed, Bits;
      ghost var f := Bits(v, bits);
      var i: int := bits - 1;
      assert f[..0] == [];
      while i >= 0
        invariant -1 <= i < bits
        invariant Valid() && written == old(written) + f[..bits - 1 - i]
      {
        BitsAt(v, bits, bits - 1 - i);
        PutBit(Shr(v, i) % 2 == 1);
        assert f[..bits - i] == f[..bits - 1 - i] + [f[bits - 1 - i]];
        i := i - 1;
      }
      assert f[..bits] == f;
    }

    /** The mask `1 << bits - 1` is all ones from 64 bits up, where the shift overflows to zero. */
    method PutSigned(v: int, bits: nat)
      requires Valid() && InRange(Signed(v, bits))
      modifies this
      ensures Valid() && written == old(written) + FieldBits(Signed(v, bits))
    {
      hide Packed, Bits;
      var u := v % U64;
      if bits < 64 {
        MaskKeepsBits(u, bits);
        Put(u % Pow2(bits), bits);
      } else {
        Put(u, bits);
      }
    }

    /** Completes the final byte. */
    method Pad() returns (ghost k: nat)
      requires Valid()
      modifies this
      ensures k < 8 && n % 8 == 0 && n == old(n) + k
      ensures Valid() && written == old(written) + Zeros(k)
      ensures DataBits(buf) == written
    {
      hide DataBits, Packed, Bits;
      k := 0;
      ghost var gap := (8 - n % 8) % 8;
      while n % 8 != 0
        invariant n == old(n) + k && k <= gap
        invariant Valid() && written == old(written) + Zeros(k)
        decreases gap - k
      {
        PutBit(false);
        k := k + 1;
      }
      PackedFull(buf, written);
    }

    /** Any sequence of field writes. */
    method PutAll(fs: seq<Field>)
      requires Valid() && forall f :: f in fs ==> InRange(f)
      modifies this
      ensures Valid() && written == old(written) + FieldsBits(fs)
    {
      hide Packed, Bits, FieldsBits;
      var i := 0;
      NoFields();
      assert fs[..0] == [];
      while i < |fs|
        invariant 0 <= i <= |fs|
        invariant Valid() && written == old(written) + FieldsBits(fs[..i])
      {
        match fs[i] {
          case Unsigned(v, w) => Put(v, w);
          case Signed(v, w) => PutSigned(v, w);
        }
        FieldsSnoc(fs[..i], fs[i]);
        assert fs[..i + 1] == fs[..i] + [fs[i]];
        Streams.Assoc(old(written), FieldsBits(fs[..i]), FieldBits(fs[i]));
        i := i + 1;
      }
      assert fs[..i] == fs;
    }
  }

  lemma ZeroByte()
    ensures DataBits([0]) == Zeros(8)
  {
    DataBitsOne(0);
    BitsOfZero(8);
  }

  lemma AppendByte(buf: seq<Byte>, bits: seq<bool>)
    requires Packed(buf, bits) && |bits| % 8 == 0
    ensures DataBits(buf + [0]) == bits + Zeros(8)
  {
    hide Bits;
    DataBitsConcat(buf, [0]);
    ZeroByte();
    assert bits + Zeros(0) == bits;
  }

  lemma PackBit(buf: seq<Byte>, bits: seq<bool>, bit: bool)
    requires |buf| == |bits| / 8 + 1
    requires DataBits(buf) == bits + Zeros(8 * |buf| - |bits|)
    ensures var n := |bits|;
            Packed(if bit then buf[n / 8 := SetBit(buf[n / 8], 7 - n % 8)] else buf, bits + [bit])
  {
    hide Bits, SetBit;
    var n, z := |bits|, 8 * |buf| - |bits|;
    if bit {
      SetBitAt(buf, n);
    }
    assert (bits + Zeros(z))[n := bit] == bits + [bit] + Zeros(z - 1);
    assert (bits + Zeros(z))[n := false] == bits + Zeros(z);
  }

  lemma PackedFull(buf: seq<Byte>, bits: seq<bool>)
    requires Packed(buf, bits) && |bits| % 8 == 0
    ensures DataBits(buf) == bits
  {
    assert bits + Zeros(0) == bits;
  }

  lemma SetBitAt(d: seq<Byte>, i: nat)
    requires i < 8 * |d|
    ensures DataBits(d[i / 8 := SetBit(d[i / 8], 7 - i % 8)]) == DataBits(d)[i := true]
  {
    hide Bits, SetBit;
    var e := d[i / 8 := SetBit(d[i / 8], 7 - i % 8)];
    forall j | 0 <= j < 8 * |d| ensures DataBits(e)[j] == DataBits(d)[i := true][j] {
      if j / 8 == i / 8 {
        assert Bits(e[j / 8], 8) == Bits(d[j / 8], 8)[i % 8 := true];
      }
    }
  }

  lemma NoFields()
    ensures FieldsBits([]) == []
  {
  }

  lemma MaskKeepsBits(u: nat, bits: nat)
    ensures Bits(u % Pow2(bits), bits) == Bits(u, bits)
  {
    hide Bits;
    ModMod(u, Pow2(bits));
    BitsMod(u % Pow2(bits), u, bits);
  }

  lemma ModMod(u: nat, m: nat)
    requires m > 0
    ensures (u % m) % m == u % m
  {
  }

  lemma FieldsSnoc(fs: seq<Field>, f: Field)
    ensures FieldsBits(fs + [f]) == FieldsBits(fs) + FieldBits(f)
  {
    assert (fs + [f])[..|fs|] == fs;
  }

  // ---- the reader

  /** `n` bits from `pos` on, zero beyond the end. */
  function Window(bits: seq<bool>, pos: nat, n: nat): (w: seq<bool>)
    ensures |w| == n
  {
    seq(n, i requires 0 <= i < n => pos + i < |bits| && bits[pos + i])
  }

  /** The two's-complement number a bit string denotes. */
  function SignedValue(b: seq<bool>): int {
    if b != [] && b[0] then Value(b) - Pow2(|b|) else Value(b)
  }

  method ReadU(b: seq<Byte>, pos: nat, n: nat) returns (v: nat)
    ensures v == Value(Window(DataBits(b), pos, n)) % U64
  {
    hide DataBits, Bits, Value, Shr, Pow2;
    ghost var w := Window(DataBits(b), pos, n);
    v := 0;
    var i := pos;
    EmptyValue();
    assert w[..0] == [];
    while i < pos + n
      invariant pos <= i <= pos + n
      invariant v == Value(w[..i - pos]) % U64
    {
      ghost var k := i - pos;
      if i / 8 >= |b| {
        assert w == w[..k] + Zeros(n - k);
        ShiftedOut(w[..k], n - k);
        return v * Pow2(pos + n - i) % U64;
      }
      BitOf(b, i);
      var bit := Shr(b[i / 8], 7 - i % 8) % 2;
      NextBit(w, k);
      Accumulate(Value(w[..k]), bit);
      v := (v * 2 % U64 + bit) % U64;
      i := i + 1;
    }
    assert w[..n] == w;
  }

  lemma Accumulate(x: nat, bit: nat)
    ensures (x % U64 * 2 % U64 + bit) % U64 == (2 * x + bit) % U64
  {
    ModMul(x, 2, U64);
    ModAdd(x * 2, bit, U64);
  }

  lemma ModAdd(x: nat, y: nat, m: nat)
    requires m > 0
    ensures (x % m + y) % m == (x + y) % m
  {
    DivMod(x, m);
    Shifted(x, y, x / m, x % m, m);
  }

  lemma Shifted(x: nat, y: nat, q: nat, r: nat, m: nat)
    requires m > 0 && x == q * m + r
    ensures (x + y) % m == (r + y) % m
  {
    ModAddMul(r + y, q, m);
    assert x + y == r + y + q * m;
  }

  lemma DivMod(x: nat, m: nat)
    requires m > 0
    ensures x == x / m * m + x % m
  {
  }

  lemma EmptyValue()
    ensures Value([]) == 0
  {
  }

  lemma NextBit(w: seq<bool>, k: nat)
    requires k < |w|
    ensures Value(w[..k + 1]) == 2 * Value(w[..k]) + if w[k] then 1 else 0
  {
    assert w[..k + 1][..k] == w[..k];
  }

  lemma BitOf(b: seq<Byte>, i: nat)
    requires i < 8 * |b|
    ensures DataBits(b)[i] == (Shr(b[i / 8], 7 - i % 8) % 2 == 1)
  {
    hide Bits, Shr;
    BitsAt(b[i / 8], 8, i % 8);
  }

  lemma ShiftedOut(a: seq<bool>, k: nat)
    ensures Value(a) % U64 * Pow2(k) % U64 == Value(a + Zeros(k)) % U64
  {
    hide Value, Pow2;
    ValueConcat(a, Zeros(k));
    ZerosValue(k);
    ModMul(Value(a), Pow2(k), U64);
  }

  lemma {:induction false} ZerosValue(k: nat)
    ensures Value(Zeros(k)) == 0
  {
    if k != 0 {
      assert Zeros(k)[..k - 1] == Zeros(k - 1);
      ZerosValue(k - 1);
    }
  }

  lemma ModMul(x: nat, y: nat, m: nat)
    requires m > 0
    ensures x % m * y % m == x * y % m
  {
    DivMod(x, m);
    Multiplied(x, y, x / m, x % m, m);
  }

  lemma Multiplied(x: nat, y: nat, q: nat, r: nat, m: nat)
    requires m > 0 && x == q * m + r
    ensures x * y % m == r * y % m
  {
    Regroup(q, m, r, y);
    ModAddMul(r * y, q * y, m);
  }

  lemma Regroup(q: nat, m: nat, r: nat, y: nat)
    ensures (q * m + r) * y == r * y + (q * y) * m
  {
    assert (q * m) * y == (q * y) * m;
  }

  lemma ModAddMul(a: nat, k: nat, m: nat)
    requires m > 0
    ensures (a + k * m) % m == a % m
  {
    var q, r := a / m, a % m;
    assert a + k * m == (q + k) * m + r;
    ModUnique(a + k * m, q + k, m, r);
  }

  method ReadS(b: seq<Byte>, pos: nat, n: nat) returns (v: int)
    ensures n <= 64 ==> v == SignedValue(Window(DataBits(b), pos, n))
  {
    hide DataBits, Bits, Value, Shr, Pow2, Window;
    ghost var w := Window(DataBits(b), pos, n);
    var u := ReadU(b, pos, n);
    if n <= 64 {
      WordValue(w);
    }
    if n < 64 && n > 0 && Shr(u, n - 1) % 2 == 1 {
      return u - Pow2(n);
    }
    // int64(v): the conversion reinterprets the top bit of a 64-bit value
    return if u >= 0x8000_0000_0000_0000 then u - U64 else u;
  }

  lemma WordValue(w: seq<bool>)
    requires |w| <= 64
    ensures Value(w) < U64
    ensures w == [] ==> Value(w) == 0
    ensures 0 < |w| < 64 ==> w[0] == (Shr(Value(w), |w| - 1) % 2 == 1)
    ensures |w| < 64 ==> Value(w) < 0x8000_0000_0000_0000
    ensures |w| == 64 ==> w[0] == (Value(w) >= 0x8000_0000_0000_0000) && Pow2(64) == U64
  {
    hide Shr, Pow2;
    ValueBound(w);
    FitsWord(|w|);
    Pow64();
    if w != [] {
      TopBit(w);
    }
  }

  lemma Pow64()
    ensures Pow2(64) == U64 && Pow2(63) == 0x8000_0000_0000_0000
  {
    Pow2Values();
    Pow2Add(24, 24);
    Pow2Add(48, 16);
    assert Pow2(64) == 2 * Pow2(63);
  }

  lemma FitsWord(n: nat)
    requires n <= 64
    ensures Pow2(n) <= U64 && (n < 64 ==> Pow2(n) <= 0x8000_0000_0000_0000)
  {
    hide Pow2;
    Pow64();
    Pow2Monotone(n, 64);
    if n < 64 {
      Pow2Monotone(n, 63);
    }
  }

  lemma {:induction false} Pow2Monotone(m: nat, n: nat)
    requires m <= n
    ensures Pow2(m) <= Pow2(n)
    decreases n
  {
    if m < n {
      Pow2Monotone(m, n - 1);
    }
  }

  /** The top bit of a bit string, as the code tests it and as a comparison. */
  lemma TopBit(w: seq<bool>)
    requires w != []
    ensures w[0] == (Shr(Value(w), |w| - 1) % 2 == 1)
    ensures w[0] == (Value(w) >= Pow2(|w| - 1))
  {
    hide Bits, Shr;
    BitsOfValue(w);
    BitsAt(Value(w), |w|, 0);
    var t := w[1..];
    assert w == [w[0]] + t;
    ValueConcat([w[0]], t);
    ValueBound(t);
    assert Value([w[0]]) == if w[0] then 1 else 0;
  }

  // ---- reading back what was written

  /** Whatever field list was written at the front of a buffer, the reader at the fields'
      cumulative offsets returns each field's bits; that is the value modulo 2^width, or the
      signed value itself when it fits the width. */
  lemma ReadBack(fs: seq<Field>, k: nat, data: seq<Byte>)
    requires k < |fs| && InRange(fs[k]) && FieldsBits(fs) <= DataBits(data)
    ensures var f, pos := fs[k], |FieldsBits(fs[..k])|;
            var w := Window(DataBits(data), pos, f.width);
            && w == FieldBits(f)
            && (f.Unsigned? ==> Value(w) == f.v % Pow2(f.width))
            && (f.Signed? && FitsSigned(f.i, f.width) ==> SignedValue(w) == f.i)
  {
    hide DataBits, Bits, Value;
    var f, pos := fs[k], |FieldsBits(fs[..k])|;
    FieldsAt(fs, k);
    assert Window(DataBits(data), pos, f.width) == FieldsBits(fs)[pos..pos + f.width];
    if f.Unsigned? {
      ValueOfBits(f.v, f.width);
    } else if FitsSigned(f.i, f.width) {
      SignedBack(f.i, f.width);
    }
  }

  predicate FitsSigned(i: int, w: nat) {
    1 <= w <= 64 && 0 <= i + Pow2(w - 1) < 2 * Pow2(w - 1)
  }

  lemma {:induction false} FieldsAt(fs: seq<Field>, k: nat)
    requires k < |fs|
    ensures |FieldsBits(fs[..k])| + fs[k].width <= |FieldsBits(fs)|
    ensures FieldsBits(fs)[|FieldsBits(fs[..k])|..|FieldsBits(fs[..k])| + fs[k].width] == FieldBits(fs[k])
    decreases |fs|
  {
    hide Bits, FieldBits;
    var g := fs[..|fs| - 1];
    if k < |g| {
      FieldsAt(g, k);
      assert g[..k] == fs[..k];
    }
  }

  lemma SignedBack(i: int, w: nat)
    requires FitsSigned(i, w)
    ensures SignedValue(Bits(i % U64, w)) == i
  {
    hide Bits, Value;
    var b := Bits(i % U64, w);
    ValueOfBits(i % U64, w);
    TwosComplement(i, w);
    TopBit(b);
  }

  lemma TwosComplement(i: int, w: nat)
    requires FitsSigned(i, w)
    ensures i % U64 % Pow2(w) == if i >= 0 then i else i + Pow2(w)
  {
    hide Pow2;
    Doubled(w - 1);
    FitsWord(w - 1);
    if i >= 0 {
      SmallMod(i, Pow2(w));
    } else {
      Pow2Add(64 - w, w);
      Pow64();
      WholeMultiple(i, U64, Pow2(w), Pow2(64 - w));
      assert i % U64 == U64 + i;
    }
  }

  lemma Doubled(n: nat)
    ensures Pow2(n + 1) == 2 * Pow2(n)
  {
  }

  lemma SmallMod(i: nat, p: nat)
    requires i < p
    ensures i % p == i
  {
  }

  lemma WholeMultiple(i: int, u: nat, p: nat, q: nat)
    requires u == q * p && q > 0 && u + i >= 0
    requires i < 0 <= i + p
    ensures (u + i) % p == i + p
  {
    MulSub(q, 1, p);
    ModUnique(u + i, q - 1, p, i + p);
  }
}
