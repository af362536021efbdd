/** Broadcast navigation data as bit strings, and RTCM messages as lists of fields. */
module Navigation {
  import opened BitSeq
  import opened BitPacking
  import Streams

  /** Field of `n` bits at `pos` inside a bit string (see FieldsAreReads). */
  function U(b: seq<bool>, pos: nat, n: nat): nat
    requires pos + n <= |b|
  {
    Value(b[pos..pos + n])
  }

  function S(b: seq<bool>, pos: nat, n: nat): int
    requires pos + n <= |b|
  {
    SignedValue(b[pos..pos + n])
  }

  lemma WindowInside(bits: seq<bool>, pos: nat, n: nat)
    requires pos + n <= |bits|
    ensures Window(bits, pos, n) == bits[pos..pos + n]
  {
  }

  /** The fields above are what the reader returns for the bytes of the string: ReadU and ReadS
      return the values on the right. */
  lemma FieldsAreReads(d: seq<Byte>, pos: nat, n: nat)
    requires pos + n <= 8 * |d| && n <= 64
    ensures U(DataBits(d), pos, n) == Value(Window(DataBits(d), pos, n)) % U64
    ensures S(DataBits(d), pos, n) == SignedValue(Window(DataBits(d), pos, n))
  {
    hide DataBits, Window, Value;
    WindowInside(DataBits(d), pos, n);
    WordValue(DataBits(d)[pos..pos + n]);
    SmallMod(Value(DataBits(d)[pos..pos + n]), U64);
  }

  function Concat(parts: seq<seq<bool>>): seq<bool> {
    if parts == [] then [] else Concat(parts[..|parts| - 1]) + parts[|parts| - 1]
  }

  lemma {:induction false} FieldsAreParts(fs: seq<Field>, parts: seq<seq<bool>>)
    requires |fs| == |parts|
    requires forall k :: 0 <= k < |fs| ==> FieldBits(fs[k]) == parts[k]
    ensures FieldsBits(fs) == Concat(parts)
  {
    hide FieldBits;
    if fs != [] {
      FieldsAreParts(fs[..|fs| - 1], parts[..|parts| - 1]);
    }
  }

  /** Writing a field that was read transmits the very bits that were read. */
  lemma UnsignedCopied(b: seq<bool>)
    ensures FieldBits(Unsigned(Value(b), |b|)) == b
  {
    BitsOfValue(b);
  }

  lemma SignedCopied(b: seq<bool>)
    requires |b| <= 63
    ensures FieldBits(Signed(SignedValue(b), |b|)) == b
    ensures InRange(Signed(SignedValue(b), |b|))
  {
    hide Bits, Value, Pow2;
    ValueBound(b);
    FitsWord(|b|);
    BitsOfValue(b);
    if b != [] && b[0] {
      var i := Value(b) - Pow2(|b|);
      assert i % U64 == U64 + i;
      Pow64();
      Pow2Add(64 - |b|, |b|);
      WholeMultiple(i, U64, Pow2(|b|), Pow2(64 - |b|));
      SmallMod(Value(b), Pow2(|b|));
      BitsMod(U64 + i, Value(b), |b|);
    }
  }

  lemma UnsignedFits(b: seq<bool>)
    requires |b| <= 64
    ensures Value(b) < U64
  {
    hide Value, Pow2;
    ValueBound(b);
    FitsWord(|b|);
  }

  function Sum(w: seq<nat>): nat {
    if w == [] then 0 else w[0] + Sum(w[1..])
  }

  lemma {:induction false} TotalWidth(parts: seq<seq<bool>>, widths: seq<nat>)
    requires |parts| == |widths| && forall k :: 0 <= k < |parts| ==> |parts[k]| == widths[k]
    ensures |Concat(parts)| == Sum(widths)
  {
    if parts != [] {
      var n := |parts| - 1;
      TotalWidth(parts[..n], widths[..n]);
      SumSnoc(widths[..n], widths[n]);
      assert widths == widths[..n] + [widths[n]];
    }
  }

  lemma {:induction false} SumSnoc(w: seq<nat>, x: nat)
    ensures Sum(w + [x]) == Sum(w) + x
  {
    if w == [] {
      assert [x][1..] == [];
    } else {
      SumSnoc(w[1..], x);
      assert (w + [x])[1..] == w[1..] + [x];
    }
  }

  lemma {:induction false} SumConcat(v: seq<nat>, w: seq<nat>)
    ensures Sum(v + w) == Sum(v) + Sum(w)
  {
    if v == [] {
      assert v + w == w;
    } else {
      SumConcat(v[1..], w);
      assert (v + w)[1..] == v[1..] + w;
    }
  }

  lemma Sum4(w: seq<nat>)
    requires |w| == 4
    ensures Sum(w) == w[0] + w[1] + w[2] + w[3]
  {
    assert w[1..][1..] == w[2..] && w[2..][1..] == w[3..] && w[3..][1..] == [];
    assert Sum(w[3..]) == w[3];
    assert Sum(w[2..]) == w[2] + Sum(w[3..]);
    assert Sum(w[1..]) == w[1] + Sum(w[2..]);
  }

  lemma Sum16(w: seq<nat>)
    requires |w| == 16
    ensures Sum(w) == w[0] + w[1] + w[2] + w[3] + w[4] + w[5] + w[6] + w[7]
                    + w[8] + w[9] + w[10] + w[11] + w[12] + w[13] + w[14] + w[15]
  {
    hide Sum;
    Sum4(w[..4]);
    Sum4(w[4..8]);
    Sum4(w[8..12]);
    Sum4(w[12..]);
    SumConcat(w[..4], w[4..8]);
    SumConcat(w[..8], w[8..12]);
    SumConcat(w[..12], w[12..]);
    assert w[..4] + w[4..8] == w[..8] && w[..8] + w[8..12] == w[..12] && w[..12] + w[12..] == w;
  }

  lemma Sum32(w: seq<nat>)
    requires |w| == 32
    ensures Sum(w) == w[0] + w[1] + w[2] + w[3] + w[4] + w[5] + w[6] + w[7]
                    + w[8] + w[9] + w[10] + w[11] + w[12] + w[13] + w[14] + w[15]
                    + w[16] + w[17] + w[18] + w[19] + w[20] + w[21] + w[22] + w[23]
                    + w[24] + w[25] + w[26] + w[27] + w[28] + w[29] + w[30] + w[31]
  {
    hide Sum;
    Sum16(w[..16]);
    Sum16(w[16..]);
    SumConcat(w[..16], w[16..]);
    assert w[..16] + w[16..] == w;
  }

  function Padding(n: nat): (z: seq<nat>)
    ensures |z| == n && forall k :: 0 <= k < n ==> z[k] == 0
  {
    seq(n, _ => 0)
  }

  lemma {:induction false} SumPadding(n: nat)
    ensures Sum(Padding(n)) == 0
  {
    if n != 0 {
      SumPadding(n - 1);
      assert Padding(n)[1..] == Padding(n - 1);
    }
  }

  /** The sum of at most 32 numbers. */
  lemma SumPadded(w: seq<nat>, n: nat)
    requires |w| + n == 32
    ensures var z := w + Padding(n);
            Sum(w) == z[0] + z[1] + z[2] + z[3] + z[4] + z[5] + z[6] + z[7]
                    + z[8] + z[9] + z[10] + z[11] + z[12] + z[13] + z[14] + z[15]
                    + z[16] + z[17] + z[18] + z[19] + z[20] + z[21] + z[22] + z[23]
                    + z[24] + z[25] + z[26] + z[27] + z[28] + z[29] + z[30] + z[31]
  {
    hide Sum;
    SumConcat(w, Padding(n));
    SumPadding(n);
    Sum32(w + Padding(n));
  }

  // ---- fields copied from a broadcast

  ghost predicate Copied(f: Field, part: seq<bool>) {
    InRange(f) && FieldBits(f) == part
  }

  lemma UField(b: seq<bool>, pos: nat, n: nat)
    requires pos + n <= |b| && n <= 64
    ensures Copied(Unsigned(U(b, pos, n), n), b[pos..pos + n])
  {
    UnsignedCopied(b[pos..pos + n]);
    UnsignedFits(b[pos..pos + n]);
  }

  lemma SField(b: seq<bool>, pos: nat, n: nat)
    requires pos + n <= |b| && n <= 63
    ensures Copied(Signed(S(b, pos, n), n), b[pos..pos + n])
  {
    SignedCopied(b[pos..pos + n]);
  }

  lemma CopyNumber(v: nat, n: nat)
    requires v < U64
    ensures Copied(Unsigned(v, n), Bits(v, n))
  {
  }

  lemma SameField(a: seq<bool>, i: nat, b: seq<bool>, j: nat, n: nat)
    requires i + n <= |a| && j + n <= |b|
    ensures U(a, i, n) == U(b, j, n) <==> a[i..i + n] == b[j..j + n]
  {
    BitsOfValue(a[i..i + n]);
    BitsOfValue(b[j..j + n]);
  }

  lemma {:induction false} ConcatHead(parts: seq<seq<bool>>)
    requires parts != []
    ensures parts[0] <= Concat(parts)
  {
    if |parts| == 1 {
      assert Concat(parts[..0]) == [];
    } else {
      ConcatHead(parts[..|parts| - 1]);
    }
  }

  lemma {:induction false} ConcatJoin(a: seq<seq<bool>>, b: seq<seq<bool>>)
    ensures Concat(a + b) == Concat(a) + Concat(b)
    decreases |b|
  {
    if b == [] {
      assert a + b == a;
    } else {
      var c, m := b[..|b| - 1], b[|b| - 1];
      assert (a + b)[..|a + b| - 1] == a + c;
      ConcatJoin(a, c);
      Streams.Assoc(Concat(a), Concat(c), m);
    }
  }

  /** Two messages that differ in one part at most are equal exactly when that part is. */
  lemma SameMiddle(a: seq<seq<bool>>, m: seq<bool>, n: seq<bool>, b: seq<seq<bool>>)
    requires |m| == |n|
    ensures Concat(a + [m] + b) == Concat(a + [n] + b) <==> m == n
  {
    hide Concat;
    var p, z := Concat(a), Concat(b);
    Middle(a, m, b);
    Middle(a, n, b);
    assert (p + m + z)[|p|..|p| + |m|] == m;
    assert (p + n + z)[|p|..|p| + |n|] == n;
  }

  lemma Middle(a: seq<seq<bool>>, m: seq<bool>, b: seq<seq<bool>>)
    ensures Concat(a + [m] + b) == Concat(a) + m + Concat(b)
  {
    ConcatJoin(a + [m], b);
    assert (a + [m])[..|a|] == a;
  }
}
