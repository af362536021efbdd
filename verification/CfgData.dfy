/** The key/value data carried by configuration messages. */
module CfgData {
  import opened BitSeq
  import opened Streams
  import opened Outcomes

  type Key = k: int | 0 <= k < 0x1_0000_0000

  /** The value width a key announces; 0 for an unknown width. */
  function KeySize(k: Key): nat {
    var c := k / 0x1000_0000 % 8;
    if c == 1 || c == 2 then 1 else if c == 3 then 2 else if c == 4 then 4 else if c == 5 then 8 else 0
  }

  /** Bits 28 to 30 of the key say how wide the value is. */
  lemma KeySizes(k: Key)
    ensures var c := k / 0x1000_0000 % 8;
            KeySize(k) == [0, 1, 1, 2, 4, 8, 0, 0][c]
  {
  }

  datatype KV = KV(key: Key, value: seq<Byte>)

  predicate Sized(kv: KV) {
    |kv.value| == KeySize(kv.key) > 0
  }

  function KeyBytes(k: Key): (b: seq<Byte>)
    ensures |b| == 4
  {
    [k % 256, k / 0x100 % 256, k / 0x1_0000 % 256, k / 0x100_0000]
  }

  function KeyAt(d: seq<Byte>): Key
    requires |d| >= 4
  {
    d[0] as int + d[1] as int * 0x100 + d[2] as int * 0x1_0000 + d[3] as int * 0x100_0000
  }

  lemma KeyBack(k: Key, rest: seq<Byte>)
    ensures KeyAt(KeyBytes(k) + rest) == k
  {
    var d := KeyBytes(k) + rest;
    assert d[0] == KeyBytes(k)[0] && d[1] == KeyBytes(k)[1] && d[2] == KeyBytes(k)[2] && d[3] == KeyBytes(k)[3];
    FourBytes(k);
  }

  lemma FourBytes(k: int)
    ensures k % 256 + k / 0x100 % 256 * 0x100 + k / 0x1_0000 % 256 * 0x1_0000 + k / 0x100_0000 * 0x100_0000 == k
  {
    assert k / 0x100 / 0x100 == k / 0x1_0000 && k / 0x1_0000 / 0x100 == k / 0x100_0000;
  }

  /** A key as four bytes, the least significant first, and back. */
  lemma KeyInBytes(k: Key, d: seq<Byte>)
    requires |d| >= 4
    ensures KeyBytes(k)[0] as int + KeyBytes(k)[1] as int * 256 + KeyBytes(k)[2] as int * 65536
            + KeyBytes(k)[3] as int * 16777216 == k
    ensures KeyAt(d) == k <==> d[..4] == KeyBytes(k)
  {
    FourBytes(k);
    if KeyAt(d) == k {
      KeyDigits(d[0], d[1], d[2], d[3]);
    }
    if d[..4] == KeyBytes(k) {
      KeyBack(k, d[4..]);
      assert KeyBytes(k) + d[4..] == d;
    }
  }

  lemma KeyDigits(a: Byte, b: Byte, c: Byte, d: Byte)
    ensures var k := a as int + b as int * 0x100 + c as int * 0x1_0000 + d as int * 0x100_0000;
            k % 256 == a && k / 0x100 % 256 == b && k / 0x1_0000 % 256 == c && k / 0x100_0000 == d
  {
    var x := c as int + 256 * d as int;
    var y := b as int + 256 * x;
    var k := a as int + 256 * y;
    assert k / 0x100 == y && y / 0x100 == x && x / 0x100 == d;
    assert k / 0x1_0000 == k / 0x100 / 0x100 && k / 0x100_0000 == k / 0x1_0000 / 0x100;
  }

  function Serialise(kvs: seq<KV>): seq<Byte> {
    if kvs == [] then [] else KeyBytes(kvs[0].key) + kvs[0].value + Serialise(kvs[1..])
  }

  lemma {:induction false} SerialiseSnoc(kvs: seq<KV>, kv: KV)
    ensures Serialise(kvs + [kv]) == Serialise(kvs) + (KeyBytes(kv.key) + kv.value)
  {
    hide KeyBytes;
    if kvs == [] {
      assert kvs + [kv] == [kv];
      assert Serialise([kv][1..]) == [];
    } else {
      assert (kvs + [kv])[1..] == kvs[1..] + [kv];
      SerialiseSnoc(kvs[1..], kv);
      Assoc(KeyBytes(kvs[0].key) + kvs[0].value, Serialise(kvs[1..]), KeyBytes(kv.key) + kv.value);
    }
  }

  lemma SerialiseNone(p: seq<Byte>, kvs: seq<KV>)
    ensures p == p + Serialise(kvs[..0])
  {
  }

  /** The first pair of the data, unless its width is unknown or it is incomplete. */
  function Head(d: seq<Byte>): (o: Option<KV>)
    ensures o.Some? ==> 4 + |o.value.value| <= |d| && Sized(o.value)
  {
    if |d| < 4 then None
    else
      var k := KeyAt(d);
      var n := KeySize(k);
      if n == 0 || 4 + n > |d| then None else Some(KV(k, d[4..4 + n]))
  }

  /** Parsing stops at the first key of unknown width and at the first incomplete value. */
  function ParseCfg(d: seq<Byte>): seq<KV>
    decreases |d|
  {
    match Head(d)
    case None => []
    case Some(kv) => [kv] + ParseCfg(d[4 + |kv.value|..])
  }

  method ParseCfgData(d: seq<Byte>) returns (out: seq<KV>)
    ensures out == ParseCfg(d)
  {
    hide KeyAt, KeySize;
    out := [];
    var i := 0;
    assert d[0..] == d;
    while i + 4 <= |d|
      invariant 0 <= i <= |d|
      invariant ParseCfg(d) == out + ParseCfg(d[i..])
    {
      var w := d[i..];
      var k := KeyAt(w);
      i := i + 4;
      var n := KeySize(k);
      if n == 0 || i + n > |d| {
        return;
      }
      ghost var kv := KV(k, w[4..4 + n]);
      assert d[i..i + n] == w[4..4 + n] && d[i + n..] == w[4 + n..];
      Assoc(out, [kv], ParseCfg(w[4 + n..]));
      out := out + [KV(k, d[i..i + n])];
      i := i + n;
    }
  }

  lemma HeadOf(kv: KV, rest: seq<Byte>)
    requires Sized(kv)
    ensures Head(KeyBytes(kv.key) + kv.value + rest) == Some(kv)
    ensures (KeyBytes(kv.key) + kv.value + rest)[4 + |kv.value|..] == rest
  {
    hide KeyBytes, KeyAt, KeySize;
    Assoc(KeyBytes(kv.key), kv.value, rest);
    KeyBack(kv.key, kv.value + rest);
  }

  /** Parsing inverts serialisation. */
  lemma {:induction false} ParseSerialised(kvs: seq<KV>)
    requires forall kv :: kv in kvs ==> Sized(kv)
    ensures ParseCfg(Serialise(kvs)) == kvs
  {
    hide KeyBytes, Head, Sized;
    if kvs != [] {
      HeadOf(kvs[0], Serialise(kvs[1..]));
      ParseSerialised(kvs[1..]);
      assert kvs == [kvs[0]] + kvs[1..];
    }
  }
}
