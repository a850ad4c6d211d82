/** Base64url without padding (section 5 of RFC 4648), as the token format uses
    it: the decoder refuses padding, foreign characters and non-zero trailing bits. */
module Base64Url {
  import opened Basics

  type byte = n: nat | n < 256

  type sextet = n: nat | n < 64

  // ----- bytes and sextets -----

  function Quad(a: byte, b: byte, c: byte): (q: seq<sextet>)
    ensures |q| == 4
  {
    [a / 4, a % 4 * 16 + b / 16, b % 16 * 4 + c / 64, c % 64]
  }

  function Triple(v: sextet, w: sextet, x: sextet, y: sextet): (t: seq<byte>)
    ensures |t| == 3
  {
    [v * 4 + w / 16, w % 16 * 16 + x / 4, x % 4 * 64 + y]
  }

  lemma TripleOfQuad(a: byte, b: byte, c: byte)
    ensures var q := Quad(a, b, c); Triple(q[0], q[1], q[2], q[3]) == [a, b, c]
    ensures c == 0 ==> Quad(a, b, c)[2] % 4 == 0 && Quad(a, b, c)[3] == 0
    ensures b == 0 ==> Quad(a, b, c)[1] % 16 == 0
    ensures b == 0 && c == 0 ==> Quad(a, b, c)[2] == 0
  {
    SplitBy16(a % 4, b / 16);
    SplitBy4(b % 16, c / 64);
  }

  lemma QuadOfTriple(v: sextet, w: sextet, x: sextet, y: sextet)
    ensures var t := Triple(v, w, x, y); Quad(t[0], t[1], t[2]) == [v, w, x, y]
    ensures x % 4 == 0 && y == 0 ==> Triple(v, w, x, y)[2] == 0
    ensures w % 16 == 0 && x == 0 ==> Triple(v, w, x, y)[1] == 0
  {
    SplitBy4(v, w / 16);
    SplitBy16(w % 16, x / 4);
    SplitBy64(x % 4, y);
  }

  lemma SplitBy4(hi: nat, lo: nat)
    requires lo < 4
    ensures (hi * 4 + lo) / 4 == hi && (hi * 4 + lo) % 4 == lo
  {
  }

  lemma SplitBy16(hi: nat, lo: nat)
    requires lo < 16
    ensures (hi * 16 + lo) / 16 == hi && (hi * 16 + lo) % 16 == lo
  {
  }

  lemma SplitBy64(hi: nat, lo: nat)
    requires lo < 64
    ensures (hi * 64 + lo) / 64 == hi && (hi * 64 + lo) % 64 == lo
  {
  }

  /** Three bytes to four sextets; a rest of one or two bytes is padded with zero
      bits and only the sextets holding data are kept. */
  function Pack(b: seq<byte>): (r: seq<sextet>) {
    if |b| == 0 then []
    else if |b| == 1 then Quad(b[0], 0, 0)[..2]
    else if |b| == 2 then Quad(b[0], b[1], 0)[..3]
    else Quad(b[0], b[1], b[2]) + Pack(b[3..])
  }

  function Unpack(s: seq<sextet>): Option<seq<byte>> {
    if |s| == 0 then Some([])
    else if |s| == 1 then None
    else if |s| == 2 then if s[1] % 16 == 0 then Some(Triple(s[0], s[1], 0, 0)[..1]) else None
    else if |s| == 3 then if s[2] % 4 == 0 then Some(Triple(s[0], s[1], s[2], 0)[..2]) else None
    else
      match Unpack(s[4..])
      case None => None
      case Some(rest) => Some(Triple(s[0], s[1], s[2], s[3]) + rest)
  }

  lemma {:induction false} UnpackOfPack(b: seq<byte>)
    ensures Unpack(Pack(b)) == Some(b)
    ensures |Pack(b)| == (4 * |b| + 2) / 3
  {
    if |b| == 0 {
    } else if |b| == 1 {
      TripleOfQuad(b[0], 0, 0);
      var q := Quad(b[0], 0, 0);
      assert Pack(b) == [q[0], q[1]];
      assert Triple(q[0], q[1], 0, 0)[..1] == [b[0]] == b;
    } else if |b| == 2 {
      TripleOfQuad(b[0], b[1], 0);
      var q := Quad(b[0], b[1], 0);
      assert Pack(b) == [q[0], q[1], q[2]];
      assert Triple(q[0], q[1], q[2], 0)[..2] == [b[0], b[1]] == b;
    } else {
      UnpackOfPack(b[3..]);
      TripleOfQuad(b[0], b[1], b[2]);
      assert Pack(b)[4..] == Pack(b[3..]);
      assert b == [b[0], b[1], b[2]] + b[3..];
    }
  }

  lemma {:induction false} PackOfUnpack(s: seq<sextet>)
    requires Unpack(s).Some?
    ensures Pack(Unpack(s).value) == s
  {
    if |s| == 0 {
    } else if |s| == 2 {
      QuadOfTriple(s[0], s[1], 0, 0);
      assert s == [s[0], s[1]];
    } else if |s| == 3 {
      QuadOfTriple(s[0], s[1], s[2], 0);
      assert s == [s[0], s[1], s[2]];
    } else {
      PackOfUnpack(s[4..]);
      QuadOfTriple(s[0], s[1], s[2], s[3]);
      var t := Triple(s[0], s[1], s[2], s[3]);
      assert (t + Unpack(s[4..]).value)[3..] == Unpack(s[4..]).value;
      assert s == [s[0], s[1], s[2], s[3]] + s[4..];
    }
  }

  // ----- sextets and characters -----

  function Char(v: sextet): char {
    if v < 26 then 'A' + v as char
    else if v < 52 then 'a' + (v - 26) as char
    else if v < 62 then '0' + (v - 52) as char
    else if v == 62 then '-'
    else '_'
  }

  function Value(c: char): Option<sextet> {
    if 'A' <= c <= 'Z' then Some(c as int - 'A' as int)
    else if 'a' <= c <= 'z' then Some(c as int - 'a' as int + 26)
    else if '0' <= c <= '9' then Some(c as int - '0' as int + 52)
    else if c == '-' then Some(62)
    else if c == '_' then Some(63)
    else None
  }

  lemma ValueOfChar(v: sextet)
    ensures Value(Char(v)) == Some(v) && Char(v) != '.'
  {
  }

  lemma CharOfValue(c: char)
    ensures Value(c).Some? ==> Char(Value(c).value) == c
  {
  }

  function ToText(s: seq<sextet>): (t: string)
    ensures |t| == |s| && forall i :: 0 <= i < |s| ==> t[i] == Char(s[i])
  {
    seq(|s|, i requires 0 <= i < |s| => Char(s[i]))
  }

  function FromText(t: string): (r: Option<seq<sextet>>)
    ensures r.Some? ==> |r.value| == |t| && forall i :: 0 <= i < |t| ==> Value(t[i]) == Some(r.value[i])
    ensures (forall i :: 0 <= i < |t| ==> Value(t[i]).Some?) ==> r.Some?
  {
    if t == [] then Some([])
    else
      match (Value(t[0]), FromText(t[1..]))
      case (Some(v), Some(rest)) => Some([v] + rest)
      case _ => None
  }

  lemma FromTextOfToText(s: seq<sextet>)
    ensures FromText(ToText(s)) == Some(s)
  {
    forall i | 0 <= i < |s| ensures Value(ToText(s)[i]) == Some(s[i]) {
      ValueOfChar(s[i]);
    }
    assert FromText(ToText(s)).value == s;
  }

  lemma ToTextOfFromText(t: string)
    requires FromText(t).Some?
    ensures ToText(FromText(t).value) == t
  {
    forall i | 0 <= i < |t| ensures ToText(FromText(t).value)[i] == t[i] {
      CharOfValue(t[i]);
    }
  }

  // ----- the codec -----

  function Encode(b: seq<byte>): string {
    ToText(Pack(b))
  }

  function Decode(t: string): Option<seq<byte>> {
    match FromText(t)
    case None => None
    case Some(s) => Unpack(s)
  }

  /** Whatever was encoded is what is decoded; four characters for three bytes,
      rounded up, and never a dot. */
  lemma DecodeOfEncode(b: seq<byte>)
    ensures Decode(Encode(b)) == Some(b)
    ensures |Encode(b)| == (4 * |b| + 2) / 3
    ensures '.' !in Encode(b)
  {
    UnpackOfPack(b);
    FromTextOfToText(Pack(b));
    forall i | 0 <= i < |Encode(b)| ensures Encode(b)[i] != '.' {
      ValueOfChar(Pack(b)[i]);
    }
  }

  /** Every text the decoder accepts is the one encoding of what it decodes to. */
  lemma EncodeOfDecode(t: string)
    requires Decode(t).Some?
    ensures Encode(Decode(t).value) == t
  {
    ToTextOfFromText(t);
    PackOfUnpack(FromText(t).value);
  }

  // ----- the table -----

  /** Table 2 of RFC 4648. */
  const ALPHABET: string := "ABCDEFGHIJKLMNOPQRSTUVWXYZ" + "abcdefghijklmnopqrstuvwxyz" + "0123456789-_"

  /** Bit `i` of a byte, most significant first. */
  function BitOfByte(x: byte, i: nat): (bit: nat)
    requires i < 8
    ensures bit < 2
  {
    if i == 0 then x / 128 % 2
    else if i == 1 then x / 64 % 2
    else if i == 2 then x / 32 % 2
    else if i == 3 then x / 16 % 2
    else if i == 4 then x / 8 % 2
    else if i == 5 then x / 4 % 2
    else if i == 6 then x / 2 % 2
    else x % 2
  }

  /** Bit `i` of a byte string, most significant first; zero beyond its end. */
  function Bit(b: seq<byte>, i: nat): (bit: nat)
    ensures bit < 2
  {
    if i / 8 < |b| then BitOfByte(b[i / 8], i % 8) else 0
  }

  function Number(b5: nat, b4: nat, b3: nat, b2: nat, b1: nat, b0: nat): nat {
    32 * b5 + 16 * b4 + 8 * b3 + 4 * b2 + 2 * b1 + b0
  }

  /** The number formed by bits 6j to 6j + 5. */
  function SixBits(b: seq<byte>, j: nat): (v: nat)
    ensures v < 64
  {
    Number(Bit(b, 6 * j), Bit(b, 6 * j + 1), Bit(b, 6 * j + 2), Bit(b, 6 * j + 3), Bit(b, 6 * j + 4), Bit(b, 6 * j + 5))
  }

  lemma CapitalSymbols(v: sextet)
    requires v < 26
    ensures ALPHABET[v] == 'A' + v as char
  {
  }

  lemma SmallSymbols(v: sextet)
    requires 26 <= v < 52
    ensures ALPHABET[v] == 'a' + (v - 26) as char
  {
  }

  lemma OtherSymbols(v: sextet)
    requires 52 <= v
    ensures ALPHABET[v] == if v < 62 then '0' + (v - 52) as char else if v == 62 then '-' else '_'
  {
  }

  lemma CharIsSymbol(v: sextet)
    ensures Char(v) == ALPHABET[v]
  {
    if v < 26 {
      CapitalSymbols(v);
    } else if v < 52 {
      SmallSymbols(v);
    } else {
      OtherSymbols(v);
    }
  }

  lemma Halves(x: byte)
    ensures x / 4 == x / 2 / 2 && x / 8 == x / 4 / 2 && x / 16 == x / 8 / 2
    ensures x / 32 == x / 16 / 2 && x / 64 == x / 32 / 2 && x / 128 == x / 64 / 2 && x / 128 < 2
  {
  }

  /** A byte is the number its bits form. */
  lemma BitsOfByte(x: byte)
    ensures x / 64 == 2 * BitOfByte(x, 0) + BitOfByte(x, 1)
    ensures x / 16 == 4 * (x / 64) + 2 * BitOfByte(x, 2) + BitOfByte(x, 3)
    ensures x / 4 == 4 * (x / 16) + 2 * BitOfByte(x, 4) + BitOfByte(x, 5)
    ensures x == 4 * (x / 4) + 2 * BitOfByte(x, 6) + BitOfByte(x, 7)
  {
    Halves(x);
  }

  lemma SixFromOne(x: byte)
    ensures x / 4 == Number(BitOfByte(x, 0), BitOfByte(x, 1), BitOfByte(x, 2), BitOfByte(x, 3), BitOfByte(x, 4), BitOfByte(x, 5))
    ensures x % 64 == Number(BitOfByte(x, 2), BitOfByte(x, 3), BitOfByte(x, 4), BitOfByte(x, 5), BitOfByte(x, 6), BitOfByte(x, 7))
  {
    BitsOfByte(x);
  }

  lemma SixFromTwo(x: byte, y: byte)
    ensures x % 4 * 16 + y / 16 ==
            Number(BitOfByte(x, 6), BitOfByte(x, 7), BitOfByte(y, 0), BitOfByte(y, 1), BitOfByte(y, 2), BitOfByte(y, 3))
    ensures x % 16 * 4 + y / 64 ==
            Number(BitOfByte(x, 4), BitOfByte(x, 5), BitOfByte(x, 6), BitOfByte(x, 7), BitOfByte(y, 0), BitOfByte(y, 1))
  {
    BitsOfByte(x);
    BitsOfByte(y);
  }

  /** Six consecutive bits of three bytes. */
  lemma QuadIsBits(x: byte, y: byte, z: byte, j: nat)
    requires j < 4
    ensures Quad(x, y, z)[j] ==
      if j == 0 then Number(BitOfByte(x, 0), BitOfByte(x, 1), BitOfByte(x, 2), BitOfByte(x, 3), BitOfByte(x, 4), BitOfByte(x, 5))
      else if j == 1 then Number(BitOfByte(x, 6), BitOfByte(x, 7), BitOfByte(y, 0), BitOfByte(y, 1), BitOfByte(y, 2), BitOfByte(y, 3))
      else if j == 2 then Number(BitOfByte(y, 4), BitOfByte(y, 5), BitOfByte(y, 6), BitOfByte(y, 7), BitOfByte(z, 0), BitOfByte(z, 1))
      else Number(BitOfByte(z, 2), BitOfByte(z, 3), BitOfByte(z, 4), BitOfByte(z, 5), BitOfByte(z, 6), BitOfByte(z, 7))
  {
    if j == 0 {
      SixFromOne(x);
    } else if j == 1 {
      SixFromTwo(x, y);
    } else if j == 2 {
      SixFromTwo(y, z);
    } else {
      SixFromOne(z);
    }
  }

  /** Byte `k` of a byte string; zero beyond its end. */
  function ByteAt(b: seq<byte>, k: nat): byte {
    if k < |b| then b[k] else 0
  }

  lemma BitsAreInBytes(b: seq<byte>)
    ensures forall k: nat, i: nat | i < 8 :: Bit(b, 8 * k + i) == BitOfByte(ByteAt(b, k), i)
  {
  }

  lemma FirstFour(b: seq<byte>, j: nat)
    requires j < 4
    ensures Quad(ByteAt(b, 0), ByteAt(b, 1), ByteAt(b, 2))[j] == SixBits(b, j)
  {
    QuadIsBits(ByteAt(b, 0), ByteAt(b, 1), ByteAt(b, 2), j);
    BitsAreInBytes(b);
  }

  /** Three bytes are 24 bits: dropping them moves every sextet four places. */
  lemma BitsShift(b: seq<byte>, i: nat)
    requires |b| >= 3
    ensures Bit(b[3..], i) == Bit(b, i + 24)
  {
  }

  lemma SixBitsShift(b: seq<byte>, j: nat)
    requires |b| >= 3
    ensures SixBits(b[3..], j) == SixBits(b, j + 4)
  {
    var i := 6 * j;
    assert 6 * (j + 4) == i + 24;
    BitsShift(b, i);
    BitsShift(b, i + 1);
    BitsShift(b, i + 2);
    BitsShift(b, i + 3);
    BitsShift(b, i + 4);
    BitsShift(b, i + 5);
  }

  lemma {:induction false} PackHead(b: seq<byte>, j: nat)
    requires j < |Pack(b)| && j < 4
    ensures Pack(b)[j] == Quad(ByteAt(b, 0), ByteAt(b, 1), ByteAt(b, 2))[j]
  {
  }

  lemma {:induction false} PackTail(b: seq<byte>, j: nat)
    requires 4 <= j < |Pack(b)|
    ensures |b| >= 3 && j - 4 < |Pack(b[3..])| && Pack(b)[j] == Pack(b[3..])[j - 4]
  {
  }

  lemma {:induction false} PackIsBits(b: seq<byte>, j: nat)
    requires j < |Pack(b)|
    ensures Pack(b)[j] == SixBits(b, j)
    decreases |b|
  {
    if j < 4 {
      PackHead(b, j);
      FirstFour(b, j);
    } else {
      PackTail(b, j);
      PackIsBits(b[3..], j - 4);
      SixBitsShift(b, j - 4);
    }
  }

  /** Section 5 of RFC 4648: character j of the encoding is the symbol of the table for
      bits 6j to 6j + 5, zero-padded at the end. */
  lemma EncodesByTheTable(b: seq<byte>)
    ensures |Encode(b)| == (4 * |b| + 2) / 3
    ensures forall j :: 0 <= j < |Encode(b)| ==> Encode(b)[j] == ALPHABET[SixBits(b, j)]
  {
    DecodeOfEncode(b);
    forall j | 0 <= j < |Encode(b)| ensures Encode(b)[j] == ALPHABET[SixBits(b, j)] {
      PackIsBits(b, j);
      CharIsSymbol(Pack(b)[j]);
    }
  }

  /** And a text decodes to `b` exactly when it is that one. */
  lemma DecodesByTheTable(t: string, b: seq<byte>)
    ensures Decode(t) == Some(b) <==>
      |t| == (4 * |b| + 2) / 3 && forall j :: 0 <= j < |t| ==> t[j] == ALPHABET[SixBits(b, j)]
  {
    EncodesByTheTable(b);
    DecodeOfEncode(b);
    if Decode(t) == Some(b) {
      EncodeOfDecode(t);
    }
    if |t| == |Encode(b)| && forall j :: 0 <= j < |t| ==> t[j] == ALPHABET[SixBits(b, j)] {
      assert t == Encode(b);
    }
  }
}
