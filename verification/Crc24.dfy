/** CRC-24Q, the checksum of RTCM 3 transport frames: the table-driven code, the
    shift register it implements, polynomial long division, and what the checksum detects. */
module Crc24 {
  import opened BitSeq

  /** The generator polynomial 0x1864CFB without its leading x^24 term. */
  const FEEDBACK: seq<bool> := Bits(0x864CFB, 24)

  type Reg = r: seq<bool> | |r| == 24 witness Zeros(24)

  // ---- the shift register

  /** One shift of the register: multiply by x, reduce modulo the generator. */
  function Shift(r: Reg): (s: Reg) {
    if r[0] then Xor(r[1..] + [false], FEEDBACK) else r[1..] + [false]
  }

  function ShiftN(r: Reg, n: nat): Reg
    decreases n, r
  {
    if n == 0 then r else ShiftN(Shift(r), n - 1)
  }

  /** Clocks message bits into the register. */
  function Feed(r: Reg, bits: seq<bool>): Reg
    decreases |bits|
  {
    if bits == [] then r else Feed(Shift(r[0 := r[0] != bits[0]]), bits[1..])
  }

  /** The checksum of a byte string, as a register. */
  function Crc(d: seq<Byte>): Reg {
    Feed(Zeros(24), DataBits(d))
  }

  lemma {:induction false} FeedConcat(r: Reg, a: seq<bool>, b: seq<bool>)
    ensures Feed(r, a + b) == Feed(Feed(r, a), b)
    decreases |a|
  {
    if a == [] {
      assert a + b == b;
    } else {
      FeedConcat(Shift(r[0 := r[0] != a[0]]), a[1..], b);
      assert (a + b)[1..] == a[1..] + b;
    }
  }

  // ---- linearity

  lemma ShiftXor(r: Reg, s: Reg)
    ensures Shift(Xor(r, s)) == Xor(Shift(r), Shift(s))
  {
    var l, m := Shift(Xor(r, s)), Xor(Shift(r), Shift(s));
    forall i | 0 <= i < 24 ensures l[i] == m[i] {
      if i < 23 {
        assert Xor(r, s)[i + 1] == (r[i + 1] != s[i + 1]);
      }
    }
  }

  lemma {:induction false} ShiftNXor(r: Reg, s: Reg, n: nat)
    ensures ShiftN(Xor(r, s), n) == Xor(ShiftN(r, n), ShiftN(s, n))
    decreases n
  {
    if n != 0 {
      ShiftXor(r, s);
      ShiftNXor(Shift(r), Shift(s), n - 1);
    }
  }

  lemma {:induction false} FeedXor(r: Reg, s: Reg, a: seq<bool>, b: seq<bool>)
    requires |a| == |b|
    ensures Feed(Xor(r, s), Xor(a, b)) == Xor(Feed(r, a), Feed(s, b))
    decreases |a|
  {
    if a != [] {
      var r', s' := r[0 := r[0] != a[0]], s[0 := s[0] != b[0]];
      var t := Xor(r, s);
      assert t[0 := t[0] != Xor(a, b)[0]] == Xor(r', s');
      assert Xor(a, b)[1..] == Xor(a[1..], b[1..]);
      ShiftXor(r', s');
      FeedXor(Shift(r'), Shift(s'), a[1..], b[1..]);
    }
  }

  /** The checksum is linear: the checksum of a bitwise sum is the sum of the checksums. */
  lemma CrcLinear(a: seq<Byte>, b: seq<Byte>, c: seq<Byte>)
    requires |a| == |b| == |c|
    requires DataBits(c) == Xor(DataBits(a), DataBits(b))
    ensures Crc(c) == Xor(Crc(a), Crc(b))
  {
    assert Xor(Zeros(24), Zeros(24)) == Zeros(24);
    FeedXor(Zeros(24), Zeros(24), DataBits(a), DataBits(b));
  }

  // ---- feeding at most a register's worth of bits

  /** Up to 24 bits can be added to the top of the register at once and then shifted through. */
  lemma {:induction false} FeedShort(r: Reg, bits: seq<bool>)
    requires |bits| <= 24
    ensures Feed(r, bits) == ShiftN(Xor(r, bits + Zeros(24 - |bits|)), |bits|)
    decreases |bits|
  {
    hide Shift;
    if bits == [] {
      assert Xor(r, bits + Zeros(24)) == r;
    } else {
      var n, rest := |bits|, bits[1..];
      var r' := r[0 := r[0] != bits[0]];
      var low := [false] + rest + Zeros(24 - n);
      assert Xor(r, bits + Zeros(24 - n)) == Xor(r', low);
      ShiftXor(r', low);
      ShiftClear(rest, 24 - n);
      FeedShort(Shift(r'), rest);
    }
  }

  lemma ShiftClear(rest: seq<bool>, k: nat)
    requires |rest| + k == 23
    ensures Shift([false] + rest + Zeros(k)) == rest + Zeros(k + 1)
  {
    var low := [false] + rest + Zeros(k);
    assert low[1..] + [false] == rest + Zeros(k + 1);
  }

  lemma {:induction false} FeedZeros(r: Reg, n: nat)
    ensures Feed(r, Zeros(n)) == ShiftN(r, n)
    decreases n
  {
    if n != 0 {
      assert Zeros(n)[1..] == Zeros(n - 1);
      assert r[0 := r[0] != Zeros(n)[0]] == r;
      FeedZeros(Shift(r), n - 1);
    }
  }

  lemma FeedbackOdd()
    ensures FEEDBACK[23]
  {
    assert 0x864CFB % 2 == 1;
  }

  lemma ShiftZero(r: Reg)
    ensures Shift(r) == Zeros(24) <==> r == Zeros(24)
  {
    var up := r[1..] + [false];
    if r[0] {
      FeedbackOdd();
      assert Shift(r)[23] == (up[23] != FEEDBACK[23]);
    } else if r != Zeros(24) {
      var i :| 0 < i < 24 && r[i];
      assert up[i - 1];
    } else {
      assert up == Zeros(24);
    }
  }

  /** Because the generator's constant term is 1, shifting never loses a nonzero register. */
  lemma {:induction false} ShiftNZero(r: Reg, n: nat)
    ensures ShiftN(r, n) == Zeros(24) <==> r == Zeros(24)
    decreases n
  {
    if n != 0 {
      ShiftZero(r);
      ShiftNZero(Shift(r), n - 1);
    }
  }

  lemma XorZero(a: seq<bool>, b: seq<bool>)
    requires |a| == |b|
    ensures Xor(a, b) == Zeros(|a|) <==> a == b
  {
    if Xor(a, b) == Zeros(|a|) {
      forall i | 0 <= i < |a| ensures a[i] == b[i] {
        assert !Xor(a, b)[i];
      }
    }
  }

  /** Appending 24 bits clears the register exactly when they are the checksum. */
  lemma FeedOwn(r: Reg, t: seq<bool>)
    requires |t| == 24
    ensures Feed(r, t) == Zeros(24) <==> t == r
  {
    FeedShort(r, t);
    assert t + Zeros(0) == t;
    ShiftNZero(Xor(r, t), 24);
    XorZero(r, t);
  }

  /** A message followed by three bytes has checksum zero exactly when those bytes
      are the message's own checksum. */
  lemma CrcResidue(d: seq<Byte>, t: seq<Byte>)
    requires |t| == 3
    ensures Crc(d + t) == Zeros(24) <==> DataBits(t) == Crc(d)
  {
    DataBitsConcat(d, t);
    FeedConcat(Zeros(24), DataBits(d), DataBits(t));
    FeedOwn(Crc(d), DataBits(t));
  }

  // ---- error detection

  /** Bit strings that differ nowhere outside a window of 24 bits starting at `p`. */
  ghost predicate DifferWithin(a: seq<bool>, b: seq<bool>, p: nat) {
    && |a| == |b|
    && p + 24 <= |a|
    && forall i :: 0 <= i < |a| && (i < p || i >= p + 24) ==> a[i] == b[i]
  }

  /** Every burst error of at most 24 bits changes the checksum. */
  lemma BurstChangesCrc(d: seq<Byte>, e: seq<Byte>, p: nat)
    requires DifferWithin(DataBits(d), DataBits(e), p)
    requires d != e
    ensures Crc(d) != Crc(e)
  {
    var a, b := DataBits(d), DataBits(e);
    var x := Xor(a, b);
    var v := x[p..p + 24];
    var q := |x| - p - 24;
    assert x == Zeros(p) + v + Zeros(q);
    assert Xor(Zeros(24), Zeros(24)) == Zeros(24);
    FeedXor(Zeros(24), Zeros(24), a, b);
    assert Xor(Crc(d), Crc(e)) == Feed(Zeros(24), Zeros(p) + v + Zeros(q));
    BurstRegister(p, v, q);
    if v == Zeros(24) {
      assert x == Zeros(|x|);
      XorZero(a, b);
      DataBitsInjective(d, e);
    }
    XorZero(Crc(d), Crc(e));
  }

  lemma BurstRegister(p: nat, v: Reg, q: nat)
    ensures Feed(Zeros(24), Zeros(p) + v + Zeros(q)) == Zeros(24) <==> v == Zeros(24)
  {
    FeedConcat(Zeros(24), Zeros(p) + v, Zeros(q));
    FeedConcat(Zeros(24), Zeros(p), v);
    FeedZeros(Zeros(24), p);
    ShiftNZero(Zeros(24), p);
    FeedOwn(Zeros(24), v);
    var r := Feed(Zeros(24), v);
    FeedZeros(r, q);
    ShiftNZero(r, q);
  }

  // ---- polynomial division

  /** The generator 0x1864CFB, all 25 coefficients. */
  const GENERATOR: seq<bool> := [true] + FEEDBACK

  /** Remainder of schoolbook long division by the generator: while more than 24
      coefficients remain, subtract the aligned generator if the leading one is 1. */
  function Remainder(s: seq<bool>): Reg
    requires |s| >= 24
    decreases |s|
  {
    if |s| == 24 then s
    else if s[0] then Remainder((Xor(s[..25], GENERATOR) + s[25..])[1..])
    else Remainder(s[1..])
  }

  function AddTop(s: seq<bool>, r: Reg): (t: seq<bool>)
    requires |s| >= 24
    ensures |t| == |s|
  {
    Xor(s[..24], r) + s[24..]
  }

  lemma {:induction false} FeedIsDivision(r: Reg, m: seq<bool>)
    ensures Feed(r, m) == Remainder(AddTop(m + Zeros(24), r))
    decreases |m|
  {
    var s := AddTop(m + Zeros(24), r);
    if m == [] {
      assert s == Xor(Zeros(24), r) == r;
    } else {
      var r' := r[0 := r[0] != m[0]];
      var rest := m[1..] + Zeros(24);
      assert s[0] == r'[0];
      assert s[1..] == AddTop(rest, r'[1..] + [false]);
      if r'[0] {
        assert (Xor(s[..25], GENERATOR) + s[25..])[1..] == AddTop(s[1..], FEEDBACK);
        assert AddTop(AddTop(rest, r'[1..] + [false]), FEEDBACK) == AddTop(rest, Shift(r'));
      }
      FeedIsDivision(Shift(r'), m[1..]);
    }
  }

  /** The checksum is the remainder of the message times x^24 by the generator. */
  lemma CrcIsRemainder(d: seq<Byte>)
    ensures Crc(d) == Remainder(DataBits(d) + Zeros(24))
  {
    FeedIsDivision(Zeros(24), DataBits(d));
    var s := DataBits(d) + Zeros(24);
    assert AddTop(s, Zeros(24)) == s;
  }
}
