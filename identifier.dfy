/**
 * The identifier deriver: `uuidFromSha1` turns a commit hash into a string
 * shaped like a UUID (groups of 8-4-4-4-12 characters).
 *
 * The derivation is modelled for every string, as JavaScript evaluates it:
 * `substring` clamps its bounds to the length, `parseInt(_, 16)` may yield NaN,
 * and the bitwise operators convert NaN to 0.
 */
module Identifier {
  import opened Wrappers

  // ---------------------------------------------------------------------------
  // Characters and digits

  predicate IsHexDigit(c: char) {
    '0' <= c <= '9' || 'a' <= c <= 'f' || 'A' <= c <= 'F'
  }

  predicate IsLowerHexDigit(c: char) {
    '0' <= c <= '9' || 'a' <= c <= 'f'
  }

  predicate AllHex(s: string) {
    forall i :: 0 <= i < |s| ==> IsHexDigit(s[i])
  }

  /** WhiteSpace and LineTerminator code points, which `parseInt` skips at the start. */
  predicate IsJsWhitespace(c: char) {
    || c in {'\t', '\n', '\U{000B}', '\U{000C}', '\r', ' ', '\U{00A0}', '\U{1680}',
             '\U{2028}', '\U{2029}', '\U{202F}', '\U{205F}', '\U{3000}', '\U{FEFF}'}
    || '\U{2000}' <= c <= '\U{200A}'
  }

  function DigitValue(c: char): (v: nat)
    requires IsHexDigit(c)
    ensures v < 16
  {
    if '0' <= c <= '9' then c as nat - '0' as nat
    else if 'a' <= c <= 'f' then c as nat - 'a' as nat + 10
    else c as nat - 'A' as nat + 10
  }

  /** The digit `Number.prototype.toString(16)` writes for v: always lower case. */
  function LowerDigit(v: nat): (c: char)
    requires v < 16
    ensures IsLowerHexDigit(c) && DigitValue(c) == v
  {
    "0123456789abcdef"[v]
  }

  // ---------------------------------------------------------------------------
  // The JavaScript library operations the derivation uses

  /** `s.substring(start, end)` for 0 <= start <= end: both bounds are clamped to |s|. */
  function Substring(s: string, start: nat, end: nat): (r: string)
    requires start <= end
    ensures end <= |s| ==> r == s[start..end]
    ensures |r| <= end - start
  {
    var e := if end <= |s| then end else |s|;
    var b := if start <= e then start else e;
    s[b..e]
  }

  /** Bitwise AND of two non-negative integers, lowest bit first. */
  function BitAnd(a: nat, b: nat): nat
    decreases a
  {
    if a == 0 || b == 0 then 0
    else 2 * BitAnd(a / 2, b / 2) + (if a % 2 == 1 && b % 2 == 1 then 1 else 0)
  }

  /** Bitwise OR of two non-negative integers, lowest bit first. */
  function BitOr(a: nat, b: nat): nat
    decreases a + b
  {
    if a == 0 then b
    else if b == 0 then a
    else 2 * BitOr(a / 2, b / 2) + (if a % 2 == 1 || b % 2 == 1 then 1 else 0)
  }

  function Pow2(k: nat): (p: nat)
    ensures p >= 1
  {
    if k == 0 then 1 else 2 * Pow2(k - 1)
  }

  lemma AndOdd(a: nat, m: nat)
    requires m % 2 == 1
    ensures BitAnd(a, m) == 2 * BitAnd(a / 2, m / 2) + a % 2
  {
  }

  /** The mask 7 keeps the three low bits. */
  lemma {:induction false} AndThreeLowBits(a: nat)
    ensures BitAnd(a, 7) == a % 8
  {
    AndOdd(a, 7);
    AndOdd(a / 2, 3);
    AndOdd(a / 4, 1);
    assert (a / 2) / 2 == a / 4 && BitAnd(a / 8, 0) == 0;
  }

  /** The mask 0x3F keeps the six low bits. */
  lemma {:induction false} AndSixLowBits(a: nat)
    ensures BitAnd(a, 0x3F) == a % 64
  {
    AndSixAsThreeAndThree(a);
    AndThreeLowBits(a / 8);
    AndThreeLowBits(a);
    SixBitsAsThreeAndThree(a);
  }

  /** a & 0x3F is ((a >> 3) & 7) << 3 plus a & 7. */
  lemma {:induction false} AndSixAsThreeAndThree(a: nat)
    ensures BitAnd(a, 0x3F) == 8 * BitAnd(a / 8, 7) + BitAnd(a, 7)
  {
    AndOdd(a, 63);
    AndOdd(a / 2, 31);
    AndOdd(a / 4, 15);
    AndOdd(a, 7);
    AndOdd(a / 2, 3);
    AndOdd(a / 4, 1);
    assert (a / 2) / 2 == a / 4 && (a / 4) / 2 == a / 8 && BitAnd(a / 8, 0) == 0;
  }

  lemma SixBitsAsThreeAndThree(a: nat)
    ensures a % 64 == 8 * ((a / 8) % 8) + a % 8
  {
    var q, r := a / 64, a % 64;
    assert a == 64 * q + r;
    assert a / 8 == 8 * q + r / 8;
    assert a % 8 == r % 8;
  }

  /** OR with 2^k sets bit k of a number below 2^k, which adds 2^k. */
  lemma {:induction false} OrHighBit(m: nat, k: nat)
    requires m < Pow2(k)
    ensures BitOr(m, Pow2(k)) == m + Pow2(k)
    decreases k
  {
    if m > 0 {
      OrHighBit(m / 2, k - 1);
    }
  }

  /** Wrapping to 32 bits leaves the six low bits as they are. */
  lemma WrapKeepsLowBits(x: int)
    ensures (x % 0x1_0000_0000) % 64 == x % 64
  {
    var q, w := x / 0x1_0000_0000, x % 0x1_0000_0000;
    assert x == 0x1_0000_0000 * q + w;
    var k, r := w / 64, w % 64;
    assert w == 64 * k + r;
    assert x == 64 * (0x400_0000 * q + k) + r;
  }

  lemma OrBitSeven(m: nat)
    requires m < 0x80
    ensures BitOr(m, 0x80) == m + 0x80
  {
    assert Pow2(7) == 0x80;
    OrHighBit(m, 7);
  }

  function TrimStart(s: string): (r: string)
    ensures r == [] || !IsJsWhitespace(r[0])
  {
    if s != [] && IsJsWhitespace(s[0]) then TrimStart(s[1..]) else s
  }

  /** The longest prefix of s made of hexadecimal digits. */
  function HexDigitsPrefix(s: string): (r: string)
    ensures AllHex(r) && |r| <= |s|
  {
    if s != [] && IsHexDigit(s[0]) then [s[0]] + HexDigitsPrefix(s[1..]) else []
  }

  /** The number a string of hexadecimal digits denotes, most significant first. */
  function HexValue(s: string): nat
    requires AllHex(s)
  {
    if s == [] then 0 else 16 * HexValue(s[..|s| - 1]) + DigitValue(s[|s| - 1])
  }

  /**
   * `parseInt(s, 16)`, with None for NaN: skip leading white space, take an
   * optional sign, drop a `0x`/`0X` prefix, then read the longest run of hex
   * digits; no digit at all gives NaN.
   */
  function ParseInt16(s: string): Option<int>
  {
    var t := TrimStart(s);
    var negative := |t| > 0 && t[0] == '-';
    var u := if |t| > 0 && (t[0] == '-' || t[0] == '+') then t[1..] else t;
    var v := if |u| >= 2 && u[0] == '0' && (u[1] == 'x' || u[1] == 'X') then u[2..] else u;
    var z := HexDigitsPrefix(v);
    var m: int := if z == [] then 0 else HexValue(z);
    if z == [] then None else Some(if negative then -m else m)
  }

  /** `n.toString(16)` for a non-negative integer: lower-case digits, no leading zero. */
  function ToHex(n: nat): (r: string)
    ensures |r| >= 1 && AllHex(r)
    ensures forall i :: 0 <= i < |r| ==> IsLowerHexDigit(r[i])
    ensures |r| > 1 ==> r[0] != '0'
    decreases n
  {
    if n < 16 then [LowerDigit(n)] else ToHex(n / 16) + [LowerDigit(n % 16)]
  }

  // ---------------------------------------------------------------------------
  // The derivation

  /**
   * `(n & 0x3F) | 0x80` on the result of `parseInt`. ToInt32 turns NaN into 0;
   * the mask keeps only bits 0..5 of the two's-complement value, so the low
   * byte of the operand determines the result.
   */
  function VariantByte(n: Option<int>): (b: nat)
    ensures 0x80 <= b <= 0xBF
    ensures b == 0x80 + (if n.Some? then n.value else 0) % 64
  {
    MaskVariant(if n.Some? then n.value else 0)
  }

  /**
   * `(x & 0x3F) | 0x80` on an integer: ToInt32 wraps x to 32 bits, and the
   * two's-complement bit pattern of the wrapped value is x modulo 2^32.
   */
  function MaskVariant(x: int): (b: nat)
    ensures b == 0x80 + x % 64
  {
    var low := BitAnd(x % 0x1_0000_0000, 0x3F);
    AndSixLowBits(x % 0x1_0000_0000);
    WrapKeepsLowBits(x);
    OrBitSeven(low);
    BitOr(low, 0x80)
  }

  /** A character `toString(16)` writes for a byte whose top two bits are `10`. */
  predicate IsVariantDigit(c: char) {
    c == '8' || c == '9' || c == 'a' || c == 'b'
  }

  /**
   * Group 4's first two characters: the hexadecimal text of the variant byte
   * computed from `pair`. For any input they are two lower-case hex digits, the
   * first of which is 8, 9, a or b.
   */
  function VariantHex(pair: string): (r: string)
    ensures |r| == 2 && IsVariantDigit(r[0]) && IsLowerHexDigit(r[1])
  {
    var b := VariantByte(ParseInt16(pair));
    VariantByteHex(b);
    ToHex(b)
  }

  /** A byte from 0x80 to 0xBF is written as two digits, the first 8, 9, a or b. */
  lemma VariantByteHex(b: nat)
    requires 0x80 <= b <= 0xBF
    ensures ToHex(b) == [LowerDigit(b / 16), LowerDigit(b % 16)]
    ensures IsVariantDigit(LowerDigit(b / 16))
  {
    assert ToHex(b / 16) == [LowerDigit(b / 16)];
  }

  /** The five groups joined by dashes. */
  function Dashed(g1: string, g2: string, g3: string, g4: string, g5: string): string {
    g1 + "-" + g2 + "-" + g3 + "-" + g4 + "-" + g5
  }

  /** `uuidFromSha1(hash)`: 8-4-4-4-12 groups cut from the hash, with version and variant set. */
  function UuidFromSha1(hash: string): (r: string)
    ensures |hash| >= 32 ==> |r| == 36 && r[8] == '-' && r[13] == '-' && r[18] == '-' && r[23] == '-'
  {
    var g1, g2, g3 := Substring(hash, 0, 8), Substring(hash, 8, 12), "5" + Substring(hash, 13, 16);
    var g4, g5 := VariantHex(Substring(hash, 16, 18)) + Substring(hash, 18, 20), Substring(hash, 20, 32);
    if |hash| >= 32 then DashedSlices(g1, g2, g3, g4, g5); Dashed(g1, g2, g3, g4, g5)
    else Dashed(g1, g2, g3, g4, g5)
  }

  // ---------------------------------------------------------------------------
  // Properties

  /** Where each group sits in the joined text. */
  lemma DashedSlices(g1: string, g2: string, g3: string, g4: string, g5: string)
    requires |g1| == 8 && |g2| == 4 && |g3| == 4 && |g4| == 4 && |g5| == 12
    ensures var r := Dashed(g1, g2, g3, g4, g5);
      && |r| == 36 && r[8] == '-' && r[13] == '-' && r[18] == '-' && r[23] == '-'
      && r[0..8] == g1 && r[9..13] == g2 && r[14..18] == g3 && r[19..23] == g4 && r[24..36] == g5
  {
    var r := Dashed(g1, g2, g3, g4, g5);
    assert r == g1 + ("-" + g2 + ("-" + g3 + ("-" + g4 + ("-" + g5))));
  }

  lemma {:induction false} HexDigitsPrefixOfHex(s: string)
    requires AllHex(s)
    ensures HexDigitsPrefix(s) == s
  {
    if s != [] {
      HexDigitsPrefixOfHex(s[1..]);
    }
  }

  /** `parseInt(t, 16)` reads back what `n.toString(16)` wrote. */
  lemma {:induction false} ToHexRoundTrip(n: nat)
    ensures ParseInt16(ToHex(n)) == Some(n)
  {
    var s := ToHex(n);
    assert !IsJsWhitespace(s[0]) && s[0] != '-' && s[0] != '+';
    HexDigitsPrefixOfHex(s);
    assert HexValue(s) == n by {
      HexValueOfToHex(n);
    }
  }

  lemma {:induction false} HexValueOfToHex(n: nat)
    ensures HexValue(ToHex(n)) == n
    decreases n
  {
    if n >= 16 {
      var s := ToHex(n);
      assert s[..|s| - 1] == ToHex(n / 16);
      HexValueOfToHex(n / 16);
    }
  }

  /** Two hex digits parse to the byte they denote. */
  lemma ParsePair(pair: string)
    requires |pair| == 2 && AllHex(pair)
    ensures ParseInt16(pair) == Some(16 * DigitValue(pair[0]) + DigitValue(pair[1]))
  {
    assert !IsJsWhitespace(pair[0]) && pair[0] != '-' && pair[0] != '+';
    assert TrimStart(pair) == pair;
    assert !(pair[1] == 'x' || pair[1] == 'X');
    HexDigitsPrefixOfHex(pair);
    assert pair[..1] == [pair[0]];
    assert HexValue(pair[..1]) == DigitValue(pair[0]);
  }

  /**
   * For two hex digits the variant text is determined digit by digit: the top
   * two bits of the byte are replaced by `10`, so the first character is the
   * digit 8 + (first digit modulo 4), and the second is the second digit in
   * lower case.
   */
  lemma VariantHexOfPair(pair: string)
    requires |pair| == 2 && AllHex(pair)
    ensures VariantHex(pair) == [LowerDigit(8 + DigitValue(pair[0]) % 4), LowerDigit(DigitValue(pair[1]))]
  {
    ParsePair(pair);
    var d0, d1 := DigitValue(pair[0]), DigitValue(pair[1]);
    VariantHexOfValue(pair, 16 * d0 + d1);
    VariantDigitsHex(d0, d1);
  }

  lemma VariantHexOfValue(pair: string, v: int)
    requires ParseInt16(pair) == Some(v)
    ensures VariantHex(pair) == ToHex(0x80 + v % 64)
  {
  }

  lemma VariantDigitsHex(d0: nat, d1: nat)
    requires d0 < 16 && d1 < 16
    ensures ToHex(0x80 + (16 * d0 + d1) % 64) == [LowerDigit(8 + d0 % 4), LowerDigit(d1)]
  {
    VariantDigits(d0, d1);
    VariantByteHex(0x80 + (16 * d0 + d1) % 64);
  }

  /** Replacing the top two bits of the byte 16 * d0 + d1 by `10`, digit by digit. */
  lemma VariantDigits(d0: nat, d1: nat)
    requires d0 < 16 && d1 < 16
    ensures (0x80 + (16 * d0 + d1) % 64) / 16 == 8 + d0 % 4
    ensures (0x80 + (16 * d0 + d1) % 64) % 16 == d1
  {
    var q, m := d0 / 4, d0 % 4;
    assert d0 == 4 * q + m;
    assert 16 * d0 + d1 == 64 * q + (16 * m + d1);
    assert (16 * d0 + d1) % 64 == 16 * m + d1;
  }

  /**
   * The groups of the identifier for a hash of at least 32 characters:
   * hash[0..8], hash[8..12], "5" followed by hash[13..16], the variant text of
   * hash[16..18] followed by hash[18..20], and hash[20..32].
   */
  lemma UuidGroups(hash: string)
    requires |hash| >= 32
    ensures var r := UuidFromSha1(hash);
      && r[0..8] == hash[0..8]
      && r[9..13] == hash[8..12]
      && r[14] == '5' && r[15..18] == hash[13..16]
      && r[19..21] == VariantHex(hash[16..18])
      && r[21..23] == hash[18..20]
      && r[24..36] == hash[20..32]
  {
    var v := VariantHex(hash[16..18]);
    var g3, g4 := "5" + hash[13..16], v + hash[18..20];
    DashedSlices(hash[0..8], hash[8..12], g3, g4, hash[20..32]);
    var r := UuidFromSha1(hash);
    assert r[14..18] == g3;
    assert r[14] == r[14..18][0] && r[15..18] == r[14..18][1..];
    assert r[19..23] == g4;
    assert r[19..21] == r[19..23][..2] && r[21..23] == r[19..23][2..];
  }

  /** Character 12 of the hash never influences the identifier. */
  lemma Char12Ignored(hash: string, c: char)
    requires |hash| >= 32
    ensures UuidFromSha1(hash[12 := c]) == UuidFromSha1(hash)
  {
    var h := hash[12 := c];
    assert h[0..8] == hash[0..8] && h[8..12] == hash[8..12] && h[13..16] == hash[13..16];
    assert h[16..18] == hash[16..18] && h[18..20] == hash[18..20] && h[20..32] == hash[20..32];
  }

  /**
   * Two hashes whose characters 16 and 17 are hex digits give the same
   * identifier exactly when they agree on every character the derivation
   * consumes: characters 0..11, 13..15 and 18..31, the value of character 17,
   * and the value of character 16 modulo 4 (its top two bits are overwritten).
   */
  lemma UuidEqualIff(h1: string, h2: string)
    requires |h1| >= 32 && |h2| >= 32
    requires IsHexDigit(h1[16]) && IsHexDigit(h1[17]) && IsHexDigit(h2[16]) && IsHexDigit(h2[17])
    ensures UuidFromSha1(h1) == UuidFromSha1(h2) <==> ConsumedAgree(h1, h2)
  {
    if UuidFromSha1(h1) == UuidFromSha1(h2) {
      EqualUuidsEqualGroups(h1, h2);
      EqualGroupsAgree(h1, h2);
    }
    if ConsumedAgree(h1, h2) {
      AgreeingHashesGiveEqualUuids(h1, h2);
    }
  }

  /** h1 and h2 agree on everything UuidFromSha1 reads from them. */
  predicate ConsumedAgree(h1: string, h2: string)
    requires |h1| >= 32 && |h2| >= 32
    requires IsHexDigit(h1[16]) && IsHexDigit(h1[17]) && IsHexDigit(h2[16]) && IsHexDigit(h2[17])
  {
    && h1[..12] == h2[..12]
    && h1[13..16] == h2[13..16]
    && h1[18..32] == h2[18..32]
    && DigitValue(h1[16]) % 4 == DigitValue(h2[16]) % 4
    && DigitValue(h1[17]) == DigitValue(h2[17])
  }

  lemma EqualGroupsAgree(h1: string, h2: string)
    requires |h1| >= 32 && |h2| >= 32
    requires IsHexDigit(h1[16]) && IsHexDigit(h1[17]) && IsHexDigit(h2[16]) && IsHexDigit(h2[17])
    requires h1[0..8] == h2[0..8] && h1[8..12] == h2[8..12] && h1[13..16] == h2[13..16]
    requires VariantHex(h1[16..18]) == VariantHex(h2[16..18])
    requires h1[18..20] == h2[18..20] && h1[20..32] == h2[20..32]
    ensures ConsumedAgree(h1, h2)
  {
    SliceSplit(h1, 0, 8, 12);
    SliceSplit(h2, 0, 8, 12);
    SliceSplit(h1, 18, 20, 32);
    SliceSplit(h2, 18, 20, 32);
    var p1, p2 := h1[16..18], h2[16..18];
    VariantPairsAgree(p1, p2);
    assert p1[0] == h1[16] && p1[1] == h1[17] && p2[0] == h2[16] && p2[1] == h2[17];
  }

  lemma EqualUuidsEqualGroups(h1: string, h2: string)
    requires |h1| >= 32 && |h2| >= 32
    requires UuidFromSha1(h1) == UuidFromSha1(h2)
    ensures h1[0..8] == h2[0..8] && h1[8..12] == h2[8..12] && h1[13..16] == h2[13..16]
    ensures VariantHex(h1[16..18]) == VariantHex(h2[16..18])
    ensures h1[18..20] == h2[18..20] && h1[20..32] == h2[20..32]
  {
    UuidGroups(h1);
    UuidGroups(h2);
  }

  lemma SliceSplit(s: string, a: nat, b: nat, c: nat)
    requires a <= b <= c <= |s|
    ensures s[a..c] == s[a..b] + s[b..c]
  {
  }

  /** Equal variant texts come from digit pairs that agree on what the mask keeps. */
  lemma VariantPairsAgree(p1: string, p2: string)
    requires |p1| == 2 && AllHex(p1) && |p2| == 2 && AllHex(p2)
    requires VariantHex(p1) == VariantHex(p2)
    ensures DigitValue(p1[0]) % 4 == DigitValue(p2[0]) % 4
    ensures DigitValue(p1[1]) == DigitValue(p2[1])
  {
    VariantHexOfPair(p1);
    VariantHexOfPair(p2);
    assert LowerDigit(8 + DigitValue(p1[0]) % 4) == LowerDigit(8 + DigitValue(p2[0]) % 4);
    assert LowerDigit(DigitValue(p1[1])) == LowerDigit(DigitValue(p2[1]));
  }

  /** Digit pairs that agree on what the mask keeps give equal variant texts. */
  lemma AgreeingPairsGiveEqualVariants(p1: string, p2: string)
    requires |p1| == 2 && AllHex(p1) && |p2| == 2 && AllHex(p2)
    requires DigitValue(p1[0]) % 4 == DigitValue(p2[0]) % 4
    requires DigitValue(p1[1]) == DigitValue(p2[1])
    ensures VariantHex(p1) == VariantHex(p2)
  {
    VariantHexOfPair(p1);
    VariantHexOfPair(p2);
  }

  lemma AgreeingHashesGiveEqualUuids(h1: string, h2: string)
    requires |h1| >= 32 && |h2| >= 32
    requires IsHexDigit(h1[16]) && IsHexDigit(h1[17]) && IsHexDigit(h2[16]) && IsHexDigit(h2[17])
    requires ConsumedAgree(h1, h2)
    ensures UuidFromSha1(h1) == UuidFromSha1(h2)
  {
    assert h1[0..8] == h1[..12][0..8] && h2[0..8] == h2[..12][0..8];
    assert h1[8..12] == h1[..12][8..12] && h2[8..12] == h2[..12][8..12];
    assert h1[18..20] == h1[18..32][0..2] && h2[18..20] == h2[18..32][0..2];
    assert h1[20..32] == h1[18..32][2..14] && h2[20..32] == h2[18..32][2..14];
    var p1, p2 := h1[16..18], h2[16..18];
    assert p1[0] == h1[16] && p1[1] == h1[17] && p2[0] == h2[16] && p2[1] == h2[17];
    AgreeingPairsGiveEqualVariants(p1, p2);
  }

  /** A string in the canonical lower-case 8-4-4-4-12 layout. */
  predicate IsUuidShaped(r: string) {
    && |r| == 36
    && forall i :: 0 <= i < 36 ==>
         if i in {8, 13, 18, 23} then r[i] == '-' else IsLowerHexDigit(r[i])
  }

  /**
   * A hash whose first 32 characters are lower-case hex digits gives a
   * canonical lower-case identifier whose version digit is 5 and whose variant
   * digit is 8, 9, a or b.
   */
  lemma UuidShape(hash: string)
    requires |hash| >= 32
    requires forall i :: 0 <= i < 32 ==> IsLowerHexDigit(hash[i])
    ensures IsUuidShaped(UuidFromSha1(hash))
    ensures UuidFromSha1(hash)[14] == '5' && IsVariantDigit(UuidFromSha1(hash)[19])
  {
    var r := UuidFromSha1(hash);
    UuidGroups(hash);
    forall i | 0 <= i < 36
      ensures if i in {8, 13, 18, 23} then r[i] == '-' else IsLowerHexDigit(r[i])
    {
      if i < 8 {
        assert r[i] == r[0..8][i];
      } else if 9 <= i < 13 {
        assert r[i] == r[9..13][i - 9] == hash[8 + (i - 9)];
      } else if 15 <= i < 18 {
        assert r[i] == r[15..18][i - 15] == hash[13 + (i - 15)];
      } else if 19 <= i < 21 {
        assert r[i] == r[19..21][i - 19];
      } else if 21 <= i < 23 {
        assert r[i] == r[21..23][i - 21] == hash[18 + (i - 21)];
      } else if 24 <= i {
        assert r[i] == r[24..36][i - 24] == hash[20 + (i - 24)];
      }
    }
  }
}
