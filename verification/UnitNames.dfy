/** The name of the mount unit for a path: the escaping of paths in unit names. */
module UnitNames {
  import opened BitSeq
  import opened Outcomes
  import opened Streams

  const SLASH: Byte := 0x2F
  const DASH: Byte := 0x2D
  const DOT: Byte := 0x2E
  const BACKSLASH: Byte := 0x5C
  const LOWER_X: Byte := 0x78

  /** The bytes that stand for themselves anywhere in a name. */
  predicate Plain(c: Byte) {
    || 0x61 <= c <= 0x7A || 0x41 <= c <= 0x5A || 0x30 <= c <= 0x39
    || c == 0x3A || c == 0x5F
  }

  function Hex(n: nat): (c: Byte)
    requires n < 16
    ensures Plain(c)
  {
    if n < 10 then 0x30 + n else 0x61 + (n - 10)
  }

  function Unhex(c: Byte): (n: Option<nat>)
    ensures n.Some? ==> n.value < 16
  {
    if 0x30 <= c <= 0x39 then Some(c as nat - 0x30)
    else if 0x61 <= c <= 0x66 then Some(c as nat - 0x61 + 10) else None
  }

  function EscapeByte(c: Byte, first: bool): (e: seq<Byte>)
    ensures e != []
  {
    if c == SLASH then [DASH]
    else if Plain(c) || (c == DOT && !first) then [c]
    else [BACKSLASH, LOWER_X, Hex(c as nat / 16), Hex(c as nat % 16)]
  }

  /** Byte for byte: a slash is a dash; letters, digits, colon, underscore and a dot that is not the
      first byte stay; any other byte is written in two hexadecimal digits, small letters above 9. */
  lemma Escapings(c: Byte, first: bool)
    ensures var e := EscapeByte(c, first);
            var digits: seq<Byte> := [48, 49, 50, 51, 52, 53, 54, 55, 56, 57, 97, 98, 99, 100, 101, 102];
            && (c == 47 ==> e == [45])
            && (97 <= c <= 122 || 65 <= c <= 90 || 48 <= c <= 57 || c == 58 || c == 95 ==> e == [c])
            && (c == 46 && !first ==> e == [c])
            && (!(97 <= c <= 122 || 65 <= c <= 90 || 48 <= c <= 58 || c == 95 || c == 47 || (c == 46 && !first)) ==>
                  e == [92, 120, digits[c / 16], digits[c % 16]])
  {
  }

  function Escape(s: seq<Byte>): seq<Byte> {
    if s == [] then [] else Escape(s[..|s| - 1]) + EscapeByte(s[|s| - 1], |s| == 1)
  }

  /** Without leading and trailing slashes. */
  function Trim(p: seq<Byte>): (t: seq<Byte>)
    ensures t != [] ==> t[0] != SLASH && t[|t| - 1] != SLASH
    ensures |t| <= |p|
  {
    if p == [] then []
    else if p[0] == SLASH then Trim(p[1..])
    else if p[|p| - 1] == SLASH then Trim(p[..|p| - 1])
    else p
  }

  /** Only slashes are trimmed, and only at the ends. */
  lemma {:induction false} TrimOnly(p: seq<Byte>) returns (i: nat, j: nat)
    ensures i <= j <= |p| && Trim(p) == p[i..j]
    ensures forall k :: 0 <= k < i || j <= k < |p| ==> p[k] == SLASH
    decreases |p|
  {
    if p == [] || (p[0] != SLASH && p[|p| - 1] != SLASH) {
      i, j := 0, |p|;
      assert p[0..|p|] == p;
    } else if p[0] == SLASH {
      var a, b := TrimOnly(p[1..]);
      i, j := a + 1, b + 1;
      assert p[1..][a..b] == p[i..j];
      forall k | 0 <= k < i || j <= k < |p| ensures p[k] == SLASH {
        if k > 0 {
          assert p[k] == p[1..][k - 1];
        }
      }
    } else {
      var q := p[..|p| - 1];
      i, j := TrimOnly(q);
      assert q[i..j] == p[i..j];
      forall k | 0 <= k < i || j <= k < |p| ensures p[k] == SLASH {
        if k < |q| {
          assert p[k] == q[k];
        }
      }
    }
  }

  function NameOf(path: seq<Byte>): seq<Byte> {
    if Trim(path) == [] then [DASH] else Escape(Trim(path))
  }

  method TrimSlashes(path: seq<Byte>) returns (t: seq<Byte>)
    ensures t == Trim(path)
  {
    t := path;
    while t != [] && t[0] == SLASH
      invariant Trim(t) == Trim(path)
    {
      t := t[1..];
    }
    while t != [] && t[|t| - 1] == SLASH
      invariant Trim(t) == Trim(path)
      invariant t != [] ==> t[0] != SLASH
    {
      t := t[..|t| - 1];
    }
  }

  /** The name of the unit that mounts a path. */
  method UnitNameForMount(path: seq<Byte>) returns (name: seq<Byte>)
    ensures name == NameOf(path)
  {
    hide EscapeByte;
    var trimmed := TrimSlashes(path);
    if trimmed == [] {
      return [DASH];
    }
    name := [];
    var i := 0;
    while i < |trimmed|
      invariant 0 <= i <= |trimmed| && name == Escape(trimmed[..i])
    {
      assert trimmed[..i + 1][..i] == trimmed[..i];
      var part := EscapeAt(trimmed[i], i);
      name := name + part;
      i := i + 1;
    }
    assert trimmed[..i] == trimmed;
  }

  method EscapeAt(c: Byte, i: nat) returns (part: seq<Byte>)
    ensures part == EscapeByte(c, i == 0)
  {
    if c == SLASH {
      part := [DASH];
    } else if 0x61 <= c <= 0x7A || 0x41 <= c <= 0x5A || 0x30 <= c <= 0x39 || c == 0x3A || c == 0x5F {
      part := [c];
    } else if c == DOT && i > 0 {
      part := [DOT];
    } else {
      part := [BACKSLASH, LOWER_X, Hex(c as nat / 16), Hex(c as nat % 16)];
    }
  }

  // ---- the decoder

  /** Reads a name back: a dash is a slash, an escape is its byte, the rest stands for itself. */
  function Decode(n: seq<Byte>): seq<Byte>
    decreases |n|
  {
    if n == [] then []
    else if n[0] == DASH then [SLASH] + Decode(n[1..])
    else if Escapes(n) then [DecodedByte(n)] + Decode(n[4..])
    else [n[0]] + Decode(n[1..])
  }

  predicate Escapes(n: seq<Byte>) {
    |n| >= 4 && n[0] == BACKSLASH && n[1] == LOWER_X && Unhex(n[2]).Some? && Unhex(n[3]).Some?
  }

  function DecodedByte(n: seq<Byte>): Byte
    requires Escapes(n)
  {
    16 * Unhex(n[2]).value + Unhex(n[3]).value
  }

  lemma DecodeOne(c: Byte, first: bool, rest: seq<Byte>)
    ensures Decode(EscapeByte(c, first) + rest) == [c] + Decode(rest)
  {
    var e := EscapeByte(c, first);
    var n := e + rest;
    assert n[|e|..] == rest;
    HexBack(c as nat / 16);
    HexBack(c as nat % 16);
    assert n[0] == e[0];
    if |e| == 4 {
      assert n[1] == e[1] && n[2] == e[2] && n[3] == e[3];
      assert Escapes(n) && DecodedByte(n) == c;
    }
  }

  lemma HexBack(n: nat)
    requires n < 16
    ensures Unhex(Hex(n)) == Some(n)
  {
  }

  /** Decoding undoes escaping, whatever follows. */
  lemma {:induction false} DecodeEscape(s: seq<Byte>, rest: seq<Byte>)
    ensures Decode(Escape(s) + rest) == s + Decode(rest)
    decreases |s|
  {
    hide EscapeByte, Decode;
    if s == [] {
      assert Escape(s) + rest == rest && s + Decode(rest) == Decode(rest);
    } else {
      var a, c := s[..|s| - 1], s[|s| - 1];
      var e := EscapeByte(c, |s| == 1);
      DecodeEscape(a, e + rest);
      DecodeOne(c, |s| == 1, rest);
      Assoc(Escape(a), e, rest);
      Assoc(a, [c], Decode(rest));
      assert s == a + [c];
    }
  }

  /** The decoder recovers the trimmed path of every path but the root. */
  lemma NameBack(path: seq<Byte>)
    requires Trim(path) != []
    ensures Decode(NameOf(path)) == Trim(path)
  {
    DecodeEscape(Trim(path), []);
    assert Escape(Trim(path)) + [] == Escape(Trim(path));
    assert Decode([]) == [];
  }

  /** The root alone has the name "-". */
  lemma OnlyRootIsDash(path: seq<Byte>)
    ensures NameOf(path) == [DASH] <==> Trim(path) == []
  {
    if Trim(path) != [] {
      NameBack(path);
      DashDecodes();
    }
  }

  lemma DashDecodes()
    ensures Decode([DASH]) == [SLASH]
  {
    assert [DASH][1..] == [];
  }

  /** Paths with different trimmed forms have different unit names. */
  lemma NamesDistinct(p: seq<Byte>, q: seq<Byte>)
    ensures NameOf(p) == NameOf(q) <==> Trim(p) == Trim(q)
  {
    hide Decode, Escape;
    OnlyRootIsDash(p);
    OnlyRootIsDash(q);
    if Trim(p) != [] {
      NameBack(p);
    }
    if Trim(q) != [] {
      NameBack(q);
    }
  }

  /** A name uses only the characters allowed in unit names and does not begin with a dot. */
  lemma NameLegal(path: seq<Byte>)
    ensures forall i :: 0 <= i < |NameOf(path)| ==>
              var c := NameOf(path)[i]; Plain(c) || c == DASH || c == BACKSLASH || (c == DOT && i > 0)
    ensures NameOf(path) != []
  {
    EscapeLegal(Trim(path));
  }

  lemma {:induction false} EscapeLegal(s: seq<Byte>)
    ensures forall i :: 0 <= i < |Escape(s)| ==>
              var c := Escape(s)[i]; Plain(c) || c == DASH || c == BACKSLASH || (c == DOT && i > 0)
    ensures s != [] ==> Escape(s) != []
    decreases |s|
  {
    if s != [] {
      EscapeLegal(s[..|s| - 1]);
    }
  }
}
