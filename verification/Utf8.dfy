/**
 * UTF-8: `codePointToUTF8` and `utf8ToCodepoint`, against the syntax of section 4 of RFC 3629.
 * The source's disjoint masks, shifts and ors are written as remainders, quotients and sums.
 */
module Utf8 {
  import opened Bytes

  const REPLACEMENT_CHARACTER: nat := 0xFFFD

  predicate Scalar(cp: nat) { cp <= 0x10FFFF && !(0xD800 <= cp <= 0xDFFF) }

  /** `codePointToUTF8`: empty above U+10FFFF. */
  function CodePointToUtf8(cp: nat): Text
  {
    if cp <= 0x7F then [cp]
    else if cp <= 0x7FF then [0xC0 + cp / 0x40 % 0x20, 0x80 + cp % 0x40]
    else if cp <= 0xFFFF then [0xE0 + cp / 0x1000 % 0x10, 0x80 + cp / 0x40 % 0x40, 0x80 + cp % 0x40]
    else if cp <= 0x10FFFF then
      [0xF0 + cp / 0x40000 % 8, 0x80 + cp / 0x1000 % 0x40, 0x80 + cp / 0x40 % 0x40, 0x80 + cp % 0x40]
    else []
  }

  /**
   * `utf8ToCodepoint`: the code point read at the front of s, and how many bytes the enclosing
   * loop has passed once it has made its own step over the byte the pointer is left on.
   */
  function Scan(s: Text): (r: (nat, nat))
    requires s != []
    ensures 1 <= r.1 <= |s| && r.1 <= 4
    ensures r.0 < 0x200000
  {
    var first := s[0];
    if first < 0x80 then (first, 1)
    else if first < 0xE0 then
      if |s| < 2 then (REPLACEMENT_CHARACTER, 1)
      else
        var calculated := first % 0x20 * 0x40 + s[1] % 0x40;
        (if calculated < 0x80 then REPLACEMENT_CHARACTER else calculated, 2)
    else if first < 0xF0 then
      if |s| < 3 then (REPLACEMENT_CHARACTER, 1)
      else
        var calculated := first % 0x10 * 0x1000 + s[1] % 0x40 * 0x40 + s[2] % 0x40;
        (if 0xD800 <= calculated <= 0xDFFF || calculated < 0x800 then REPLACEMENT_CHARACTER else calculated, 3)
    else if first < 0xF8 then
      if |s| < 4 then (REPLACEMENT_CHARACTER, 1)
      else
        var calculated := first % 8 * 0x40000 + s[1] % 0x40 * 0x1000 + s[2] % 0x40 * 0x40 + s[3] % 0x40;
        (if calculated < 0x10000 then REPLACEMENT_CHARACTER else calculated, 4)
    else (REPLACEMENT_CHARACTER, 1)
  }

  predicate Tail(b: Byte) { 0x80 <= b <= 0xBF }

  /** The length of the UTF8-char of section 4 of RFC 3629 at the front of s; 0 when there is none. */
  function CharLength(s: Text): (n: nat)
    ensures n <= |s| && n <= 4
  {
    if s == [] then 0
    else if s[0] <= 0x7F then 1
    else if |s| >= 2 && 0xC2 <= s[0] <= 0xDF && Tail(s[1]) then 2
    else if |s| >= 3 && Tail(s[1]) && Tail(s[2])
            && (0xE1 <= s[0] <= 0xEC || 0xEE <= s[0] <= 0xEF || (s[0] == 0xE0 && s[1] >= 0xA0)
                || (s[0] == 0xED && s[1] <= 0x9F)) then 3
    else if |s| >= 4 && Tail(s[1]) && Tail(s[2]) && Tail(s[3])
            && (0xF1 <= s[0] <= 0xF3 || (s[0] == 0xF0 && s[1] >= 0x90) || (s[0] == 0xF4 && s[1] <= 0x8F)) then 4
    else 0
  }

  /** UTF8-octets of section 4 of RFC 3629. */
  predicate WellFormed(s: Text)
  {
    s == [] || (CharLength(s) > 0 && WellFormed(s[CharLength(s)..]))
  }

  lemma ScanTwo(s: Text, y: int, x: int)
    requires |s| >= 2 && s[0] == 0xC0 + y && s[1] == 0x80 + x && 2 <= y < 0x20 && 0 <= x < 0x40
    ensures Scan(s) == (y * 0x40 + x, 2)
  {
    assert s[0] % 0x20 == y && s[1] % 0x40 == x;
  }

  lemma ScanThree(s: Text, z: int, y: int, x: int)
    requires |s| >= 3 && s[0] == 0xE0 + z && s[1] == 0x80 + y && s[2] == 0x80 + x
    requires 0 <= z < 0x10 && 0 <= y < 0x40 && 0 <= x < 0x40
    requires z * 0x40 + y >= 0x20 && !(0x360 <= z * 0x40 + y < 0x380)
    ensures Scan(s) == (z * 0x1000 + y * 0x40 + x, 3)
  {
    assert s[0] % 0x10 == z && s[1] % 0x40 == y && s[2] % 0x40 == x;
  }

  lemma ScanFour(s: Text, u: int, z: int, y: int, x: int)
    requires |s| >= 4 && s[0] == 0xF0 + u && s[1] == 0x80 + z && s[2] == 0x80 + y && s[3] == 0x80 + x
    requires 0 <= u < 8 && 0 <= z < 0x40 && 0 <= y < 0x40 && 0 <= x < 0x40 && u * 0x40 + z >= 0x10
    ensures Scan(s) == (u * 0x40000 + z * 0x1000 + y * 0x40 + x, 4)
  {
    assert s[0] % 8 == u && s[1] % 0x40 == z && s[2] % 0x40 == y && s[3] % 0x40 == x;
  }

  lemma EncodedTwo(y: int, x: int)
    requires 2 <= y < 0x20 && 0 <= x < 0x40
    ensures CodePointToUtf8(y * 0x40 + x) == [0xC0 + y, 0x80 + x]
  {
  }

  lemma EncodedThree(z: int, y: int, x: int)
    requires 0 <= z < 0x10 && 0 <= y < 0x40 && 0 <= x < 0x40 && z * 0x40 + y >= 0x20
    ensures CodePointToUtf8(z * 0x1000 + y * 0x40 + x) == [0xE0 + z, 0x80 + y, 0x80 + x]
  {
    var cp := z * 0x1000 + y * 0x40 + x;
    assert cp / 0x1000 == z && cp / 0x40 == z * 0x40 + y && cp % 0x40 == x;
  }

  lemma EncodedFour(u: int, z: int, y: int, x: int)
    requires 0 <= u < 5 && 0 <= z < 0x40 && 0 <= y < 0x40 && 0 <= x < 0x40
    requires 0x10 <= u * 0x40 + z < 0x110
    ensures CodePointToUtf8(u * 0x40000 + z * 0x1000 + y * 0x40 + x) == [0xF0 + u, 0x80 + z, 0x80 + y, 0x80 + x]
  {
    var p, cp := u * 0x40 + z, u * 0x40000 + z * 0x1000 + y * 0x40 + x;
    var q := p * 0x40 + y;
    assert cp == q * 0x40 + x && 0x10000 <= cp < 0x110000;
    assert cp / 0x40 == q && cp % 0x40 == x;
    assert cp / 0x1000 == p && q % 0x40 == y;
    assert cp / 0x40000 == u && p % 0x40 == z && u % 8 == u;
  }

  lemma ThreeBytes(z: int, y: int, x: int, rest: Text)
    requires 0 <= z < 0x10 && 0 <= y < 0x40 && 0 <= x < 0x40
    requires z * 0x40 + y >= 0x20 && !(0x360 <= z * 0x40 + y < 0x380)
    ensures var cp := z * 0x1000 + y * 0x40 + x; var e := CodePointToUtf8(cp);
            |e| == 3 && CharLength(e + rest) == 3 && Scan(e + rest) == (cp, 3)
  {
    EncodedThree(z, y, x);
    ScanThree([0xE0 + z, 0x80 + y, 0x80 + x] + rest, z, y, x);
  }

  lemma FourBytes(u: int, z: int, y: int, x: int, rest: Text)
    requires 0 <= u < 5 && 0 <= z < 0x40 && 0 <= y < 0x40 && 0 <= x < 0x40
    requires 0x10 <= u * 0x40 + z < 0x110
    ensures var cp := u * 0x40000 + z * 0x1000 + y * 0x40 + x; var e := CodePointToUtf8(cp);
            |e| == 4 && CharLength(e + rest) == 4 && Scan(e + rest) == (cp, 4)
  {
    EncodedFour(u, z, y, x);
    ScanFour([0xF0 + u, 0x80 + z, 0x80 + y, 0x80 + x] + rest, u, z, y, x);
  }

  /** Every scalar value is encoded as one UTF8-char, which scans back to it whatever follows. */
  lemma ScanOfEncoded(cp: nat, rest: Text)
    requires Scalar(cp)
    ensures CharLength(CodePointToUtf8(cp) + rest) == |CodePointToUtf8(cp)|
    ensures Scan(CodePointToUtf8(cp) + rest) == (cp, |CodePointToUtf8(cp)|)
  {
    var q: int, x: int := cp / 0x40, cp % 0x40;
    var p: int, y: int := q / 0x40, q % 0x40;
    var u: int, z: int := p / 0x40, p % 0x40;
    if 0xFFFF < cp {
      FourBytes(u, z, y, x, rest);
      assert cp == u * 0x40000 + z * 0x1000 + y * 0x40 + x;
    } else if 0x7FF < cp {
      ThreeBytes(p, y, x, rest);
      assert cp == p * 0x1000 + y * 0x40 + x;
    } else if 0x7F < cp {
      EncodedTwo(q, x);
      ScanTwo([0xC0 + q, 0x80 + x] + rest, q, x);
    }
  }

  lemma OneByteScanned(s: Text)
    requires CharLength(s) == 1
    ensures Scan(s).1 == 1 && Scalar(Scan(s).0) && CodePointToUtf8(Scan(s).0) == s[..1]
  {
  }

  lemma TwoBytesScanned(s: Text)
    requires CharLength(s) == 2
    ensures Scan(s).1 == 2 && Scalar(Scan(s).0) && CodePointToUtf8(Scan(s).0) == s[..2]
  {
    hide CodePointToUtf8, Scan;
    var y: int, x: int := s[0] as int - 0xC0, s[1] as int - 0x80;
    EncodedTwo(y, x);
    ScanTwo(s, y, x);
  }

  lemma ThreeBytesScanned(s: Text)
    requires CharLength(s) == 3
    ensures Scan(s).1 == 3 && Scalar(Scan(s).0) && CodePointToUtf8(Scan(s).0) == s[..3]
  {
    hide CodePointToUtf8, Scan;
    var z: int, y: int, x: int := s[0] as int - 0xE0, s[1] as int - 0x80, s[2] as int - 0x80;
    EncodedThree(z, y, x);
    ScanThree(s, z, y, x);
  }

  lemma FourBytesScanned(s: Text)
    requires CharLength(s) == 4
    ensures Scan(s).1 == 4 && Scalar(Scan(s).0) && CodePointToUtf8(Scan(s).0) == s[..4]
  {
    hide CodePointToUtf8, Scan;
    var u: int, z: int, y: int, x: int := s[0] as int - 0xF0, s[1] as int - 0x80, s[2] as int - 0x80,
        s[3] as int - 0x80;
    EncodedFour(u, z, y, x);
    ScanFour(s, u, z, y, x);
  }

  /** What is scanned is a scalar value, encoded in as many bytes as were passed, with their low bits. */
  predicate Shortest(s: Text)
    requires s != []
  {
    var (cp, n) := Scan(s);
    var e := CodePointToUtf8(cp);
    && Scalar(cp) && |e| == n
    && (if n == 1 then e[0] == s[0] else e[0] % 0x10 == s[0] % 0x10)
    && forall i | 0 < i < n :: e[i] % 0x40 == s[i] % 0x40
  }

  /**
   * On any bytes at all: a code point of Unicode other than U+FFFD is met only where its encoding is
   * as long as what is passed, and has the same low bits; so no overlong form and no surrogate is.
   */
  lemma ScanIsShortest(s: Text)
    requires s != [] && Scan(s).0 <= 0x10FFFF && Scan(s).0 != 0xFFFD
    ensures Shortest(s)
  {
    hide Shortest, Scan;
    if Scan(s).1 == 1 {
      OneByteShortest(s);
    } else if Scan(s).1 == 2 {
      TwoBytesShortest(s);
    } else if Scan(s).1 == 3 {
      ThreeBytesShortest(s);
    } else {
      FourBytesShortest(s);
    }
  }

  lemma OneByteShortest(s: Text)
    requires s != [] && Scan(s).1 == 1 && Scan(s).0 != 0xFFFD
    ensures Shortest(s)
  {
  }

  lemma SixBits(b: Byte)
    ensures (0x80 + b % 0x40) % 0x40 == b % 0x40
  {
  }

  lemma TwoBytesShortest(s: Text)
    requires s != [] && Scan(s).1 == 2 && Scan(s).0 != 0xFFFD
    ensures Shortest(s)
  {
    var y: int, x: int := s[0] % 0x20, s[1] % 0x40;
    assert Scan(s) == (y * 0x40 + x, 2) && y >= 2;
    hide Scan, CodePointToUtf8;
    EncodedTwo(y, x);
    SixBits(s[1]);
    assert (0xC0 + y) % 0x10 == s[0] % 0x10;
  }

  lemma ThreeBytesShortest(s: Text)
    requires s != [] && Scan(s).1 == 3 && Scan(s).0 != 0xFFFD
    ensures Shortest(s)
  {
    var z: int, y: int, x: int := s[0] % 0x10, s[1] % 0x40, s[2] % 0x40;
    assert Scan(s) == (z * 0x1000 + y * 0x40 + x, 3) && Scalar(Scan(s).0) && z * 0x40 + y >= 0x20;
    hide Scan, CodePointToUtf8;
    EncodedThree(z, y, x);
    SixBits(s[1]);
    SixBits(s[2]);
    assert (0xE0 + z) % 0x10 == z;
  }

  lemma FourBytesShortest(s: Text)
    requires s != [] && Scan(s).1 == 4 && Scan(s).0 <= 0x10FFFF && Scan(s).0 != 0xFFFD
    ensures Shortest(s)
  {
    var u: int, z: int, y: int, x: int := s[0] % 8, s[1] % 0x40, s[2] % 0x40, s[3] % 0x40;
    assert Scan(s) == (u * 0x40000 + z * 0x1000 + y * 0x40 + x, 4) && 0xF0 <= s[0] < 0xF8;
    assert 0x10 <= u * 0x40 + z < 0x110;
    hide Scan, CodePointToUtf8;
    EncodedFour(u, z, y, x);
    SixBits(s[1]);
    SixBits(s[2]);
    SixBits(s[3]);
    assert (0xF0 + u) % 0x10 == s[0] % 0x10;
  }

  /** Every UTF8-char scans, in full, to a scalar value that is encoded as exactly these bytes. */
  lemma EncodedOfScan(s: Text)
    requires CharLength(s) > 0
    ensures Scan(s).1 == CharLength(s) && Scalar(Scan(s).0)
    ensures CodePointToUtf8(Scan(s).0) == s[..CharLength(s)]
  {
    hide CodePointToUtf8;
    var n := CharLength(s);
    if n == 1 {
      OneByteScanned(s);
    } else if n == 2 {
      TwoBytesScanned(s);
    } else if n == 3 {
      ThreeBytesScanned(s);
    } else {
      FourBytesScanned(s);
    }
  }

  function Encode(cps: seq<nat>): Text
  {
    if cps == [] then [] else CodePointToUtf8(cps[0]) + Encode(cps[1..])
  }

  /** The code points the writer's loop meets, on any bytes at all. */
  function CodePoints(s: Text): seq<nat>
    decreases |s|
  {
    if s == [] then [] else [Scan(s).0] + CodePoints(s[Scan(s).1..])
  }

  predicate Scalars(cps: seq<nat>) { forall cp | cp in cps :: Scalar(cp) }

  lemma {:induction false} WellFormedDecodes(s: Text)
    requires WellFormed(s)
    ensures Scalars(CodePoints(s)) && Encode(CodePoints(s)) == s
    decreases |s|
  {
    hide Scan, CodePointToUtf8;
    if s != [] {
      EncodedOfScan(s);
      var rest := s[CharLength(s)..];
      WellFormedDecodes(rest);
      assert CodePoints(s) == [Scan(s).0] + CodePoints(rest) && CodePoints(s)[1..] == CodePoints(rest);
      assert s == s[..CharLength(s)] + rest;
    }
  }

  lemma {:induction false} EncodedIsWellFormed(cps: seq<nat>)
    requires Scalars(cps)
    ensures WellFormed(Encode(cps)) && CodePoints(Encode(cps)) == cps
  {
    hide Scan, CodePointToUtf8, CharLength;
    if cps != [] {
      var cp, rest := cps[0], Encode(cps[1..]);
      ScanOfEncoded(cp, rest);
      EncodedIsWellFormed(cps[1..]);
      var s := Encode(cps);
      assert s == CodePointToUtf8(cp) + rest && s[|CodePointToUtf8(cp)|..] == rest;
      assert cps == [cp] + cps[1..];
    }
  }

  /** The well-formed texts are exactly the encodings of sequences of scalar values. */
  lemma WellFormedIffEncoded(s: Text)
    ensures WellFormed(s) <==> exists cps :: Scalars(cps) && Encode(cps) == s
  {
    if WellFormed(s) {
      WellFormedDecodes(s);
    }
    if cps :| Scalars(cps) && Encode(cps) == s {
      EncodedIsWellFormed(cps);
    }
  }
}
