/** Project identifiers as text: the spellings the server accepts, the one it
    stores, and ASCII case-insensitive comparison (the `uuid` crate as used by
    src/backend/auth.rs). */
module Uuids {
  import opened Basics

  /** 128 bits as 32 hexadecimal digits, most significant first. */
  type Uuid = u: seq<nat> | |u| == 32 && forall i :: 0 <= i < |u| ==> u[i] < 16
    witness seq(32, _ => 0)

  const DIGITS: string := "0123456789abcdef"

  function HexChar(d: nat): (c: char)
    requires d < 16
  {
    DIGITS[d]
  }

  function HexValue(c: char): (d: Option<nat>)
    ensures d.Some? ==> d.value < 16
  {
    if '0' <= c <= '9' then Some(c as int - '0' as int)
    else if 'a' <= c <= 'f' then Some(c as int - 'a' as int + 10)
    else if 'A' <= c <= 'F' then Some(c as int - 'A' as int + 10)
    else None
  }

  lemma HexRoundTrip(d: nat)
    requires d < 16
    ensures HexValue(HexChar(d)) == Some(d) && !('A' <= HexChar(d) <= 'Z')
  {
  }

  /** `guid.simple().to_string()`: 32 lower-case digits, no dashes. */
  function Simple(u: Uuid): (s: string)
    ensures |s| == 32
  {
    seq(32, i requires 0 <= i < 32 => HexChar(u[i]))
  }

  function Hyphenated(u: Uuid): (s: string)
    ensures |s| == 36
  {
    var s := Simple(u);
    s[..8] + "-" + s[8..12] + "-" + s[12..16] + "-" + s[16..20] + "-" + s[20..]
  }

  function ParseDigits(s: string): (r: Option<seq<nat>>)
    ensures r.Some? ==> |r.value| == |s| && forall i :: 0 <= i < |s| ==> HexValue(s[i]) == Some(r.value[i])
    ensures r.None? <==> exists i :: 0 <= i < |s| && HexValue(s[i]).None?
  {
    if s == [] then Some([])
    else
      match (HexValue(s[0]), ParseDigits(s[1..]))
      case (Some(d), Some(rest)) => Some([d] + rest)
      case (None, _) => assert HexValue(s[0]).None?; None
      case (Some(_), None) =>
        assert exists i :: 0 <= i < |s[1..]| && HexValue(s[1..][i]).None? && s[1..][i] == s[i + 1];
        None
  }

  function ParseSimple(s: string): Option<Uuid> {
    if |s| != 32 then None
    else
      match ParseDigits(s)
      case None => None
      case Some(ds) => Some(ds)
  }

  function ParseHyphenated(s: string): Option<Uuid> {
    if |s| == 36 && s[8] == '-' && s[13] == '-' && s[18] == '-' && s[23] == '-'
    then ParseSimple(s[..8] + s[9..13] + s[14..18] + s[19..23] + s[24..])
    else None
  }

  const URN: string := "urn:uuid:"

  /** `Uuid::parse_str`: the form is chosen by length. */
  function Parse(s: string): Option<Uuid> {
    if |s| == 32 then ParseSimple(s)
    else if |s| == 36 then ParseHyphenated(s)
    else if |s| == 38 && s[0] == '{' && s[37] == '}' then ParseHyphenated(s[1..37])
    else if |s| == 45 && s[..9] == URN then ParseHyphenated(s[9..])
    else None
  }

  // ----- ASCII case -----

  function LowerChar(c: char): char {
    if 'A' <= c <= 'Z' then c + 32 as char else c
  }

  predicate EqIgnoreCase(a: string, b: string) {
    |a| == |b| && forall i :: 0 <= i < |a| ==> LowerChar(a[i]) == LowerChar(b[i])
  }

  lemma EqIgnoreCaseTransitive(a: string, b: string, c: string)
    requires EqIgnoreCase(a, b) && EqIgnoreCase(b, c)
    ensures EqIgnoreCase(a, c)
  {
  }

  lemma LowerKeepsValue(c: char)
    ensures HexValue(LowerChar(c)) == HexValue(c)
  {
  }

  // ----- laws -----

  lemma {:induction false} ParseDigitsIs(s: string, ds: seq<nat>)
    requires |s| == |ds| && forall i :: 0 <= i < |s| ==> HexValue(s[i]) == Some(ds[i])
    ensures ParseDigits(s) == Some(ds)
  {
    var r := ParseDigits(s);
    assert forall i :: 0 <= i < |s| ==> HexValue(s[i]).Some?;
    assert r.value == ds;
  }

  /** A text that agrees, up to ASCII case, with the simple form names that project. */
  lemma ParseAnyCase(s: string, u: Uuid)
    requires EqIgnoreCase(s, Simple(u))
    ensures Parse(s) == Some(u)
  {
    forall i | 0 <= i < 32 ensures HexValue(s[i]) == Some(u[i]) {
      HexRoundTrip(u[i]);
      LowerKeepsValue(s[i]);
      LowerKeepsValue(Simple(u)[i]);
    }
    ParseDigitsIs(s, u);
  }

  lemma EqIgnoreCaseReflexive(a: string)
    ensures EqIgnoreCase(a, a)
  {
  }

  /** The stored form parses back to the project it names. */
  lemma SimpleRoundTrip(u: Uuid)
    ensures Parse(Simple(u)) == Some(u)
  {
    ParseAnyCase(Simple(u), u);
  }

  /** So do the dashed, braced and URN spellings. */
  lemma HyphenatedRoundTrip(u: Uuid)
    ensures Parse(Hyphenated(u)) == Some(u)
    ensures Parse("{" + Hyphenated(u) + "}") == Some(u)
    ensures Parse(URN + Hyphenated(u)) == Some(u)
  {
    var h, s := Hyphenated(u), Simple(u);
    assert h[..8] == s[..8] && h[9..13] == s[8..12] && h[14..18] == s[12..16];
    assert h[19..23] == s[16..20] && h[24..] == s[20..];
    assert s[..8] + s[8..12] + s[12..16] + s[16..20] + s[20..] == s;
    assert h[8] == '-' && h[13] == '-' && h[18] == '-' && h[23] == '-';
    SimpleRoundTrip(u);
    assert ParseSimple(s) == Some(u);
    assert ParseHyphenated(h) == Some(u);
    assert ("{" + h + "}")[1..37] == h;
    assert (URN + h)[9..] == h && (URN + h)[..9] == URN;
  }

  lemma SimpleIsInjective(u: Uuid, v: Uuid)
    requires EqIgnoreCase(Simple(u), Simple(v))
    ensures u == v
  {
    ParseAnyCase(Simple(u), v);
    SimpleRoundTrip(u);
  }

  // ----- there are many of them -----

  function Pow16(k: nat): (r: nat)
    ensures r > 0
  {
    if k == 0 then 1 else 16 * Pow16(k - 1)
  }

  function Digits(n: nat, k: nat): (ds: seq<nat>)
    ensures |ds| == k && forall i :: 0 <= i < k ==> ds[i] < 16
  {
    if k == 0 then [] else Digits(n / 16, k - 1) + [n % 16]
  }

  lemma {:induction false} DigitsAreInjective(m: nat, n: nat, k: nat)
    requires m < Pow16(k) && n < Pow16(k) && Digits(m, k) == Digits(n, k)
    ensures m == n
  {
    if k > 0 {
      assert Digits(m, k)[..k - 1] == Digits(m / 16, k - 1);
      assert Digits(n, k)[..k - 1] == Digits(n / 16, k - 1);
      assert Digits(m, k)[k - 1] == m % 16 && Digits(n, k)[k - 1] == n % 16;
      DigitsAreInjective(m / 16, n / 16, k - 1);
    }
  }

  /** The identifiers spelled, up to case, by one of the texts. */
  ghost predicate Spelled(texts: seq<string>, u: Uuid) {
    exists k :: 0 <= k < |texts| && EqIgnoreCase(texts[k], Simple(u))
  }

  ghost function Numbered(n: nat): Uuid {
    Digits(n, 32)
  }

  /** A list shorter than the number of identifiers misses one. */
  lemma SomeUuidIsNotSpelled(texts: seq<string>) returns (u: Uuid)
    requires |texts| < Pow16(32)
    ensures !Spelled(texts, u)
  {
    NotAllSpelled(texts);
    var n: nat :| n <= |texts| && !Spelled(texts, Numbered(n));
    u := Numbered(n);
  }

  lemma NotAllSpelled(texts: seq<string>)
    requires |texts| < Pow16(32)
    ensures exists n: nat :: n <= |texts| && !Spelled(texts, Numbered(n))
  {
    if forall n: nat :: n <= |texts| ==> Spelled(texts, Numbered(n)) {
      var where := SpelledAt(texts, |texts| + 1);
      forall i, j | 0 <= i < j < |where| ensures where[i] != where[j] {
        if where[i] == where[j] {
          EqIgnoreCaseTransitive(Simple(Numbered(i)), texts[where[i]], Simple(Numbered(j)));
          SimpleIsInjective(Numbered(i), Numbered(j));
          DigitsAreInjective(i, j, 32);
        }
      }
      InjectionSize(Below(|where|), where, Below(|texts|));
    }
  }

  lemma {:induction false} SpelledAt(texts: seq<string>, m: nat) returns (where: seq<nat>)
    requires forall n: nat :: n < m ==> Spelled(texts, Numbered(n))
    ensures |where| == m
    ensures forall n :: 0 <= n < m ==> where[n] < |texts| && EqIgnoreCase(texts[where[n]], Simple(Numbered(n)))
  {
    where := [];
    if m > 0 {
      where := SpelledAt(texts, m - 1);
      assert Spelled(texts, Numbered(m - 1));
      var k :| 0 <= k < |texts| && EqIgnoreCase(texts[k], Simple(Numbered(m - 1)));
      where := where + [k];
    }
  }

  // ----- exactly what parses -----

  /** The four accepted spellings, in any case of the hexadecimal digits. */
  ghost predicate Spells(s: string, u: Uuid) {
    EqIgnoreCase(s, Simple(u)) ||
    EqIgnoreCase(s, Hyphenated(u)) ||
    (exists t :: EqIgnoreCase(t, Hyphenated(u)) && s == "{" + t + "}") ||
    exists t :: EqIgnoreCase(t, Hyphenated(u)) && s == "urn:uuid:" + t
  }

  lemma HexOfValue(c: char)
    ensures HexValue(c).Some? ==> LowerChar(c) == LowerChar(HexChar(HexValue(c).value))
  {
  }

  lemma {:induction false} SimpleExactly(s: string, u: Uuid)
    ensures ParseSimple(s) == Some(u) <==> EqIgnoreCase(s, Simple(u))
  {
    if ParseSimple(s) == Some(u) {
      forall i | 0 <= i < 32 ensures LowerChar(s[i]) == LowerChar(Simple(u)[i]) {
        HexOfValue(s[i]);
      }
    }
    if EqIgnoreCase(s, Simple(u)) {
      ParseAnyCase(s, u);
    }
  }

  /** The digits of a dashed spelling. */
  function Undashed(s: string): string
    requires |s| == 36
  {
    s[..8] + s[9..13] + s[14..18] + s[19..23] + s[24..]
  }

  predicate Dashed(s: string) {
    |s| == 36 && s[8] == '-' && s[13] == '-' && s[18] == '-' && s[23] == '-'
  }

  /** Where digit `i` stands in a dashed spelling, and which digit stands at place `j`. */
  function PlaceOf(i: nat): nat {
    if i < 8 then i else if i < 12 then i + 1 else if i < 16 then i + 2 else if i < 20 then i + 3 else i + 4
  }

  lemma UndashedAt(s: string, i: nat)
    requires |s| == 36 && i < 32
    ensures Undashed(s)[i] == s[PlaceOf(i)]
  {
  }

  lemma UndashedHyphenated(u: Uuid)
    ensures Dashed(Hyphenated(u)) && Undashed(Hyphenated(u)) == Simple(u)
  {
    var s, h := Simple(u), Hyphenated(u);
    assert h[..8] == s[..8] && h[9..13] == s[8..12] && h[14..18] == s[12..16] && h[19..23] == s[16..20] && h[24..] == s[20..];
    assert s == s[..8] + s[8..12] + s[12..16] + s[16..20] + s[20..];
  }

  lemma DigitAtPlace(j: nat) returns (i: nat)
    requires j < 36 && j !in {8, 13, 18, 23}
    ensures i < 32 && PlaceOf(i) == j
  {
    i := if j < 8 then j else if j < 13 then j - 1 else if j < 18 then j - 2 else if j < 23 then j - 3 else j - 4;
  }

  lemma {:induction false} DashedExactly(s: string, u: Uuid)
    ensures EqIgnoreCase(s, Hyphenated(u)) <==> Dashed(s) && EqIgnoreCase(Undashed(s), Simple(u))
  {
    var h := Hyphenated(u);
    UndashedHyphenated(u);
    if EqIgnoreCase(s, h) {
      assert Dashed(s);
      forall i: nat | i < 32 ensures LowerChar(Undashed(s)[i]) == LowerChar(Simple(u)[i]) {
        UndashedAt(s, i);
        UndashedAt(h, i);
      }
    }
    if Dashed(s) && EqIgnoreCase(Undashed(s), Simple(u)) {
      forall j: nat | j < 36 ensures LowerChar(s[j]) == LowerChar(h[j]) {
        if j !in {8, 13, 18, 23} {
          var i := DigitAtPlace(j);
          UndashedAt(s, i);
          UndashedAt(h, i);
        }
      }
    }
  }

  lemma {:induction false} HyphenatedExactly(s: string, u: Uuid)
    ensures ParseHyphenated(s) == Some(u) <==> EqIgnoreCase(s, Hyphenated(u))
  {
    DashedExactly(s, u);
    if |s| == 36 {
      SimpleExactly(Undashed(s), u);
    }
  }

  lemma {:induction false} BracedExactly(s: string, u: Uuid)
    requires |s| == 38
    ensures s[0] == '{' && s[37] == '}' && ParseHyphenated(s[1..37]) == Some(u) <==>
            exists t :: EqIgnoreCase(t, Hyphenated(u)) && s == "{" + t + "}"
  {
    HyphenatedExactly(s[1..37], u);
    if s[0] == '{' && s[37] == '}' {
      assert s == "{" + s[1..37] + "}";
    }
    if t :| EqIgnoreCase(t, Hyphenated(u)) && s == "{" + t + "}" {
      assert s[1..37] == t;
    }
  }

  lemma {:induction false} UrnExactly(s: string, u: Uuid)
    requires |s| == 45
    ensures s[..9] == URN && ParseHyphenated(s[9..]) == Some(u) <==>
            exists t :: EqIgnoreCase(t, Hyphenated(u)) && s == "urn:uuid:" + t
  {
    HyphenatedExactly(s[9..], u);
    if s[..9] == URN {
      assert s == "urn:uuid:" + s[9..];
    }
    if t :| EqIgnoreCase(t, Hyphenated(u)) && s == "urn:uuid:" + t {
      assert s[9..] == t;
    }
  }

  /** A text names a project exactly when it is one of the four spellings of it. */
  lemma {:induction false} ParseIsExact(s: string, u: Uuid)
    ensures Parse(s) == Some(u) <==> Spells(s, u)
  {
    SimpleExactly(s, u);
    HyphenatedExactly(s, u);
    if |s| == 38 {
      BracedExactly(s, u);
    }
    if |s| == 45 {
      UrnExactly(s, u);
    }
  }
}
