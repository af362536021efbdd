/** Bytes, unsigned integers and their big-endian bit strings.

    Every bit-level statement of the project is made about a `seq<bool>`, most
    significant bit first, which is how the GNSS interface documents number bits. */
module BitSeq {
  type Byte = x: int | 0 <= x < 256

  const U64: nat := 0x1_0000_0000_0000_0000

  function Pow2(n: nat): (p: nat)
    ensures p > 0
  {
    if n == 0 then 1 else 2 * Pow2(n - 1)
  }

  lemma {:induction false} Pow2Add(m: nat, n: nat)
    ensures Pow2(m + n) == Pow2(m) * Pow2(n)
  {
    if m != 0 {
      Pow2Add(m - 1, n);
    }
  }

  lemma Pow2Values()
    ensures Pow2(3) == 8 && Pow2(4) == 16 && Pow2(6) == 64 && Pow2(8) == 0x100 && Pow2(11) == 0x800
    ensures Pow2(12) == 0x1000 && Pow2(16) == 0x1_0000 && Pow2(30) == 0x4000_0000
    ensures Pow2(23) == 0x80_0000 && Pow2(24) == 0x100_0000 && Pow2(25) == 0x200_0000
  {
    assert Pow2(3) == 8 && Pow2(4) == 16 && Pow2(6) == 64 && Pow2(8) == 0x100;
    Pow2Add(8, 8);
    assert Pow2(7) == 0x80;
    Pow2Add(16, 7);
    Pow2Add(23, 1);
    Pow2Add(24, 1);
    Pow2Add(24, 6);
    Pow2Add(8, 3);
    Pow2Add(8, 4);
  }

  /** The low `n` bits of `v`, most significant first. */
  function Bits(v: nat, n: nat): (b: seq<bool>)
    ensures |b| == n
    decreases n, v
  {
    if n == 0 then [] else Bits(v / 2, n - 1) + [v % 2 == 1]
  }

  /** The unsigned number a bit string denotes. */
  function Value(b: seq<bool>): nat {
    if b == [] then 0 else 2 * Value(b[..|b| - 1]) + (if b[|b| - 1] then 1 else 0)
  }

  function Zeros(n: nat): (b: seq<bool>)
    ensures |b| == n
  {
    seq(n, _ => false)
  }

  lemma {:induction false} ValueBound(b: seq<bool>)
    ensures Value(b) < Pow2(|b|)
  {
    if b != [] {
      ValueBound(b[..|b| - 1]);
    }
  }

  lemma {:induction false} BitsOfValue(b: seq<bool>)
    ensures Bits(Value(b), |b|) == b
  {
    if b != [] {
      var c := b[..|b| - 1];
      BitsOfValue(c);
      assert Value(b) / 2 == Value(c);
      assert b == c + [b[|b| - 1]];
    }
  }

  lemma {:induction false} ModHalf(v: nat, n: nat)
    requires n > 0
    ensures v % Pow2(n) == 2 * ((v / 2) % Pow2(n - 1)) + v % 2
  {
    var p := Pow2(n - 1);
    var q, r := (v / 2) / p, (v / 2) % p;
    assert v == 2 * (v / 2) + v % 2 && v / 2 == q * p + r;
    assert v == q * (2 * p) + (2 * r + v % 2);
    ModUnique(v, q, 2 * p, 2 * r + v % 2);
  }

  /** Quotient and remainder are unique. */
  lemma ModUnique(v: nat, q: nat, p: nat, r: nat)
    requires v == q * p + r && r < p
    ensures v % p == r && v / p == q
  {
    var q' := v / p;
    assert v == q' * p + v % p;
    if q < q' {
      MulAtLeast(q' - q, p);
      MulSub(q', q, p);
      assert false;
    } else if q' < q {
      MulAtLeast(q - q', p);
      MulSub(q, q', p);
      assert false;
    }
  }

  lemma MulSub(a: int, b: int, p: int)
    ensures (a - b) * p == a * p - b * p
  {
  }

  lemma {:induction false} MulAtLeast(d: nat, p: nat)
    requires d > 0
    ensures d * p >= p
  {
    if d > 1 {
      MulAtLeast(d - 1, p);
      assert d * p == (d - 1) * p + p;
    }
  }

  lemma {:induction false} ValueOfBits(v: nat, n: nat)
    ensures Value(Bits(v, n)) == v % Pow2(n)
    decreases n
  {
    if n != 0 {
      var b := Bits(v, n);
      assert b[..n - 1] == Bits(v / 2, n - 1);
      ValueOfBits(v / 2, n - 1);
      ModHalf(v, n);
    }
  }

  /** Only the value modulo 2^n shows in an n-bit field. */
  lemma {:induction false} BitsMod(v: nat, w: nat, n: nat)
    requires v % Pow2(n) == w % Pow2(n)
    ensures Bits(v, n) == Bits(w, n)
  {
    ValueOfBits(v, n);
    ValueOfBits(w, n);
    BitsOfValue(Bits(v, n));
    BitsOfValue(Bits(w, n));
  }

  /** `v >> n`. */
  function Shr(v: nat, n: nat): nat
    decreases n, v
  {
    if n == 0 then v else Shr(v / 2, n - 1)
  }

  lemma {:induction false} ShrAdd(v: nat, m: nat, n: nat)
    ensures Shr(v, m + n) == Shr(Shr(v, m), n)
    decreases m
  {
    if m != 0 {
      ShrAdd(v / 2, m - 1, n);
    }
  }

  lemma Shifts(v: nat)
    ensures Shr(v, 8) == v / 0x100 && Shr(v, 16) == v / 0x1_0000 && Shr(v, 23) == v / 0x80_0000
  {
    hide Shr;
    Shr8(v);
    Shr8(v / 0x100);
    ShrAdd(v, 8, 8);
    ShrAdd(v, 16, 7);
    Shr7(v / 0x1_0000);
  }

  lemma Shr7(v: nat)
    ensures Shr(v, 7) == v / 0x80
  {
    hide Shr;
    Shr4(v);
    Shr3(v / 16);
    ShrAdd(v, 4, 3);
  }

  lemma Shr3(v: nat)
    ensures Shr(v, 3) == v / 8
  {
    assert Shr(v, 3) == Shr(v / 2, 2) == Shr(v / 4, 1) == Shr(v / 8, 0);
  }

  lemma Shr4(v: nat)
    ensures Shr(v, 4) == v / 16
  {
    Shr3(v / 2);
    assert Shr(v, 4) == Shr(v / 2, 3);
  }

  lemma Shr8(v: nat)
    ensures Shr(v, 8) == v / 0x100
  {
    Shr4(v);
    Shr4(v / 16);
    ShrAdd(v, 4, 4);
  }

  lemma {:induction false} BitsSplit(v: nat, m: nat, n: nat)
    ensures Bits(v, m + n) == Bits(Shr(v, n), m) + Bits(v, n)
    decreases n
  {
    if n == 0 {
      assert Bits(v, m) + [] == Bits(v, m);
    } else {
      BitsSplit(v / 2, m, n - 1);
      assert Bits(v, m + n) == Bits(v / 2, m + (n - 1)) + [v % 2 == 1];
      assert Bits(Shr(v, n), m) + Bits(v / 2, n - 1) + [v % 2 == 1]
          == Bits(Shr(v, n), m) + (Bits(v / 2, n - 1) + [v % 2 == 1]);
    }
  }

  /** Bit `i` of an n-bit field is `(v >> (n - 1 - i)) & 1`. */
  lemma {:induction false} BitsAt(v: nat, n: nat, i: nat)
    requires i < n
    ensures Bits(v, n)[i] == (Shr(v, n - 1 - i) % 2 == 1)
    decreases n
  {
    if i < n - 1 {
      BitsAt(v / 2, n - 1, i);
      assert Bits(v, n)[i] == Bits(v / 2, n - 1)[i];
    }
  }

  lemma {:induction false} BitsOfZero(n: nat)
    ensures Bits(0, n) == Zeros(n)
  {
    if n != 0 {
      BitsOfZero(n - 1);
    }
  }

  lemma {:induction false} ValueConcat(a: seq<bool>, b: seq<bool>)
    ensures Value(a + b) == Value(a) * Pow2(|b|) + Value(b)
  {
    if b == [] {
      assert a + b == a;
    } else {
      hide Value;
      var c, x := b[..|b| - 1], b[|b| - 1];
      ValueConcat(a, c);
      ValueSnoc(a + c, x);
      ValueSnoc(c, x);
      assert a + b == a + c + [x] && b == c + [x];
      Twice(Value(a), Pow2(|c|));
    }
  }

  lemma ValueSnoc(a: seq<bool>, x: bool)
    ensures Value(a + [x]) == 2 * Value(a) + (if x then 1 else 0)
  {
    assert (a + [x])[..|a|] == a;
  }

  lemma Twice(x: nat, y: nat)
    ensures 2 * (x * y) == x * (2 * y)
  {
  }

  // ---- bit strings of byte strings

  /** Bit `i` of a byte string is bit `i % 8` of byte `i / 8`. */
  function DataBits(d: seq<Byte>): (b: seq<bool>)
    ensures |b| == 8 * |d|
  {
    seq(8 * |d|, i requires 0 <= i < 8 * |d| => Bits(d[i / 8], 8)[i % 8])
  }

  lemma DataBitsConcat(c: seq<Byte>, d: seq<Byte>)
    ensures DataBits(c + d) == DataBits(c) + DataBits(d)
  {
    var l, r := DataBits(c + d), DataBits(c) + DataBits(d);
    forall i | 0 <= i < |l| ensures l[i] == r[i] {
      if i < 8 * |c| {
        assert (c + d)[i / 8] == c[i / 8];
      } else {
        OctetShift(i, |c|);
        assert (c + d)[i / 8] == d[(i - 8 * |c|) / 8];
      }
    }
  }

  lemma OctetShift(i: nat, n: nat)
    requires i >= 8 * n
    ensures (i - 8 * n) / 8 == i / 8 - n && (i - 8 * n) % 8 == i % 8
  {
  }

  lemma DataBitsOne(b: Byte)
    ensures DataBits([b]) == Bits(b, 8)
  {
    assert forall i :: 0 <= i < 8 ==> i / 8 == 0 && i % 8 == i;
  }

  lemma DataBitsSlice(d: seq<Byte>, i: nat, j: nat)
    requires i <= j <= |d|
    ensures DataBits(d[i..j]) == DataBits(d)[8 * i..8 * j]
  {
    assert d == d[..i] + d[i..j] + d[j..];
    DataBitsConcat(d[..i], d[i..j]);
    DataBitsConcat(d[..i] + d[i..j], d[j..]);
    assert DataBits(d)[8 * i..8 * j] == DataBits(d[i..j]);
  }

  lemma ByteValue(b: Byte)
    ensures Value(Bits(b, 8)) == b
  {
    hide Pow2, Bits, Value;
    Pow2Values();
    ValueOfBits(b, 8);
  }

  lemma ByteInjective(a: Byte, b: Byte)
    requires Bits(a, 8) == Bits(b, 8)
    ensures a == b
  {
    ByteValue(a);
    ByteValue(b);
  }

  /** Equal bit strings come from equal byte strings. */
  lemma DataBitsInjective(c: seq<Byte>, d: seq<Byte>)
    requires DataBits(c) == DataBits(d)
    ensures c == d
  {
    assert |c| == |d|;
    forall k | 0 <= k < |c| ensures c[k] == d[k] {
      DataBitsSlice(c, k, k + 1);
      DataBitsSlice(d, k, k + 1);
      DataBitsOne(c[k]);
      DataBitsOne(d[k]);
      assert c[k..k + 1] == [c[k]] && d[k..k + 1] == [d[k]];
      ByteInjective(c[k], d[k]);
    }
  }

  /** Three bytes as one 24-bit number. */
  lemma ThreeBytes(t: seq<Byte>, v: nat)
    requires |t| == 3
    requires v == t[0] as nat * 0x10000 + t[1] as nat * 0x100 + t[2] as nat
    ensures v < 0x100_0000 && Bits(v, 24) == DataBits(t)
  {
    hide DataBits, Bits, Shr, Pow2;
    Pow2Values();
    BitsSplit(v, 16, 8);
    BitsSplit(v / 0x100, 8, 8);
    Shifts(v);
    Shifts(v / 0x100);
    assert v / 0x100 / 0x100 == t[0] && v / 0x100 % 0x100 == t[1];
    BitsMod(v, t[2], 8);
    BitsMod(v / 0x100, t[1], 8);
    assert t == [t[0]] + [t[1]] + [t[2]];
    DataBitsConcat([t[0]] + [t[1]], [t[2]]);
    DataBitsConcat([t[0]], [t[1]]);
    DataBitsOne(t[0]);
    DataBitsOne(t[1]);
    DataBitsOne(t[2]);
  }

  // ---- exclusive or

  function Xor(a: seq<bool>, b: seq<bool>): (r: seq<bool>)
    requires |a| == |b|
    ensures |r| == |a|
  {
    seq(|a|, i requires 0 <= i < |a| => a[i] != b[i])
  }

  /** Exclusive or of two unsigned integers. */
  function XorInt(a: nat, b: nat): nat {
    if a == 0 then b
    else if b == 0 then a
    else 2 * XorInt(a / 2, b / 2) + (if a % 2 != b % 2 then 1 else 0)
  }

  lemma XorIntStep(a: nat, b: nat)
    ensures XorInt(a, b) == 2 * XorInt(a / 2, b / 2) + (if a % 2 != b % 2 then 1 else 0)
  {
  }

  lemma {:induction false} XorIntBits(a: nat, b: nat, n: nat)
    ensures Bits(XorInt(a, b), n) == Xor(Bits(a, n), Bits(b, n))
    decreases n
  {
    if n != 0 {
      XorIntStep(a, b);
      XorIntBits(a / 2, b / 2, n - 1);
    }
  }

  lemma {:induction false} XorIntBound(a: nat, b: nat, n: nat)
    requires a < Pow2(n) && b < Pow2(n)
    ensures XorInt(a, b) < Pow2(n)
  {
    if n != 0 {
      XorIntStep(a, b);
      XorIntBound(a / 2, b / 2, n - 1);
    }
  }
}
