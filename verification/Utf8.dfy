/** UTF-8 as section 3 of RFC 3629 defines it: one to four bytes a code point, surrogates excluded. */
module Utf8 {

  type Byte = x: int | 0 <= x < 0x100

  predicate IsCodePoint(x: int) {
    0 <= x < 0xD800 || 0xE000 <= x < 0x11_0000
  }

  type CodePoint = x: int | 0 <= x < 0xD800 || 0xE000 <= x < 0x11_0000

  type Bytes = seq<Byte>

  /** The low six bits of c, and what is left without them. */
  function Low(c: nat): int {
    c % 0x40
  }

  function High(c: nat): nat {
    c / 0x40
  }

  function Encode(c: CodePoint): (bs: Bytes)
    ensures 1 <= |bs| <= 4
  {
    if c < 0x80 then [c]
    else if c < 0x800 then [0xC0 + High(c), 0x80 + Low(c)]
    else if c < 0x1_0000 then [0xE0 + High(High(c)), 0x80 + Low(High(c)), 0x80 + Low(c)]
    else [0xF0 + High(High(High(c))), 0x80 + Low(High(High(c))), 0x80 + Low(High(c)), 0x80 + Low(c)]
  }

  function EncodeAll(cs: seq<CodePoint>): Bytes {
    if cs == [] then [] else Encode(cs[0]) + EncodeAll(cs[1..])
  }

  /** The bytes of an ASCII text. */
  ghost predicate Spells(bs: seq<int>, s: string) {
    |bs| == |s| && forall i | 0 <= i < |s| :: bs[i] == s[i] as int < 0x80
  }

  /** Go's utf8.RuneStart: not of the form 10xxxxxx. */
  predicate RuneStart(b: Byte) {
    b / 0x40 != 2
  }

  /** An encoded code point starts with its only start byte, and is ASCII in one byte or in none. */
  lemma EncodeShape(c: CodePoint)
    ensures RuneStart(Encode(c)[0]) && forall i | 0 < i < |Encode(c)| :: !RuneStart(Encode(c)[i])
    ensures c < 0x80 ==> Encode(c) == [c]
    ensures c >= 0x80 ==> forall b | b in Encode(c) :: b >= 0x80
  {
  }

  lemma {:induction false} EncodeAppend(a: seq<CodePoint>, b: seq<CodePoint>)
    ensures EncodeAll(a + b) == EncodeAll(a) + EncodeAll(b)
  {
    if a == [] {
      assert a + b == b;
    } else {
      assert (a + b)[1..] == a[1..] + b;
      EncodeAppend(a[1..], b);
    }
  }

  /** The code point an encoding stands for: the bits its first byte carries, then six a byte. */
  function Decode(bs: seq<int>): int
    requires 1 <= |bs| <= 4
  {
    if |bs| == 1 then bs[0]
    else if |bs| == 2 then bs[0] % 0x20 * 0x40 + bs[1] % 0x40
    else if |bs| == 3 then (bs[0] % 0x10 * 0x40 + bs[1] % 0x40) * 0x40 + bs[2] % 0x40
    else ((bs[0] % 8 * 0x40 + bs[1] % 0x40) * 0x40 + bs[2] % 0x40) * 0x40 + bs[3] % 0x40
  }

  lemma Bits(c: nat)
    ensures c == High(c) * 0x40 + Low(c) && (0x80 + Low(c)) % 0x40 == Low(c)
  {
  }

  /** What the first byte carries, whichever of its forms it has. */
  lemma LeadBits(h: nat)
    ensures h < 0x20 ==> (0xC0 + h) % 0x20 == h
    ensures h < 0x10 ==> (0xE0 + h) % 0x10 == h
    ensures h < 8 ==> (0xF0 + h) % 8 == h
  {
  }

  /** Encoding is read back. */
  lemma EncodeReadsBack(c: CodePoint)
    ensures Decode(Encode(c)) == c
  {
    Bits(c);
    Bits(High(c));
    Bits(High(High(c)));
    LeadBits(High(c));
    LeadBits(High(High(c)));
    LeadBits(High(High(High(c))));
    hide Low, High;
  }

  // ---- Reading any bytes at all ---------------------------------------------------------------------

  predicate Continues(b: int) {
    0x80 <= b < 0xC0
  }

  /** Whether b1 may follow b0: no overlong form, no surrogate, nothing past 0x10FFFF. */
  predicate MayFollow(b0: int, b1: int) {
    && (if b0 == 0xE0 then 0xA0 else if b0 == 0xF0 then 0x90 else 0x80) <= b1
    && b1 <= (if b0 == 0xED then 0x9F else if b0 == 0xF4 then 0x8F else 0xBF)
  }

  /** Go's utf8.DecodeRune: how many bytes its first rune takes, one for a byte that starts none. */
  function RuneLength(bs: Bytes): (n: nat)
    requires bs != []
    ensures 1 <= n <= |bs| && n <= 4
  {
    var b := bs[0];
    if 0xC2 <= b < 0xE0 && |bs| >= 2 && Continues(bs[1]) then 2
    else if 0xE0 <= b < 0xF0 && |bs| >= 3 && MayFollow(b, bs[1]) && Continues(bs[2]) then 3
    else if 0xF0 <= b < 0xF5 && |bs| >= 4 && MayFollow(b, bs[1]) && Continues(bs[2]) && Continues(bs[3]) then 4
    else 1
  }

  const RUNE_ERROR: CodePoint := 0xFFFD

  function FirstRune(bs: Bytes): CodePoint
    requires bs != []
  {
    var n := RuneLength(bs);
    if n > 1 then
      DecodedIsCodePoint(bs);
      Decode(bs[..n])
    else if bs[0] < 0x80 then bs[0]
    else RUNE_ERROR
  }

  lemma DecodedIsCodePoint(bs: Bytes)
    requires bs != [] && RuneLength(bs) > 1
    ensures var c := Decode(bs[..RuneLength(bs)]); c >= 0x80 && IsCodePoint(c)
  {
  }

  /** Go's conversion of a string to runes: every byte that starts no code point becomes U+FFFD. */
  function Runes(bs: Bytes): seq<CodePoint> {
    if bs == [] then [] else [FirstRune(bs)] + Runes(bs[RuneLength(bs)..])
  }

  /** The table reads an encoding at the front for what it is. */
  lemma FirstRuneOfEncoding(c: CodePoint, rest: Bytes)
    ensures RuneLength(Encode(c) + rest) == |Encode(c)| && FirstRune(Encode(c) + rest) == c
  {
    EncodeReadsBack(c);
    EncodingFollows(c);
    hide Decode, High, Low;
    var bs := Encode(c) + rest;
    assert bs[..|Encode(c)|] == Encode(c);
    assert forall i | 0 <= i < |Encode(c)| :: bs[i] == Encode(c)[i];
  }

  lemma EncodingFollows(c: CodePoint)
    ensures var bs := Encode(c);
            && (|bs| == 1 ==> bs[0] < 0x80)
            && (|bs| == 2 ==> 0xC2 <= bs[0] < 0xE0 && Continues(bs[1]))
            && (|bs| == 3 ==> 0xE0 <= bs[0] < 0xF0 && MayFollow(bs[0], bs[1]) && Continues(bs[2]))
            && (|bs| == 4 ==> 0xF0 <= bs[0] < 0xF5 && MayFollow(bs[0], bs[1]) && Continues(bs[2]) && Continues(bs[3]))
  {
    Bits(c);
    Bits(High(c));
    Bits(High(High(c)));
    LowIsSmall(c);
    LowIsSmall(High(c));
    LowIsSmall(High(High(c)));
    hide Low, High;
  }

  lemma LowIsSmall(c: nat)
    ensures 0 <= Low(c) < 0x40
  {
  }

  lemma BitsApart(h: nat, b: Byte)
    requires Continues(b)
    ensures High(h * 0x40 + b % 0x40) == h && 0x80 + Low(h * 0x40 + b % 0x40) == b
  {
  }

  lemma LeadingByte(b: Byte)
    ensures 0xC0 <= b < 0xE0 ==> 0xC0 + b % 0x20 == b
    ensures 0xE0 <= b < 0xF0 ==> 0xE0 + b % 0x10 == b
    ensures 0xF0 <= b < 0xF8 ==> 0xF0 + b % 8 == b
  {
  }

  /** And nothing else: a rune of two bytes or more is the encoding of the code point it reads as. */
  lemma LongRuneIsAnEncoding(bs: Bytes)
    requires bs != [] && RuneLength(bs) > 1
    ensures Encode(FirstRune(bs)) == bs[..RuneLength(bs)]
  {
    var n := RuneLength(bs);
    LeadingByte(bs[0]);
    DecodedIsCodePoint(bs);
    if n == 2 {
      TwoBytes(bs[..2]);
    } else if n == 3 {
      ThreeBytes(bs[..3]);
    } else {
      FourBytes(bs[..4]);
    }
  }

  lemma TwoBytes(bs: Bytes)
    requires |bs| == 2 && 0xC2 <= bs[0] < 0xE0 && Continues(bs[1])
    ensures IsCodePoint(Decode(bs)) && Encode(Decode(bs)) == bs
  {
    LeadingByte(bs[0]);
    BitsApart(bs[0] % 0x20, bs[1]);
    hide High, Low;
  }

  lemma ThreeBytes(bs: Bytes)
    requires |bs| == 3 && 0xE0 <= bs[0] < 0xF0 && MayFollow(bs[0], bs[1]) && Continues(bs[2])
    ensures IsCodePoint(Decode(bs)) && Encode(Decode(bs)) == bs
  {
    LeadingByte(bs[0]);
    var lead: nat := bs[0] % 0x10;
    var h := lead * 0x40 + bs[1] % 0x40;
    BitsApart(lead, bs[1]);
    BitsApart(h, bs[2]);
    assert 0x800 <= h * 0x40 + bs[2] % 0x40 < 0x1_0000;
    hide High, Low;
  }

  lemma FourBytes(bs: Bytes)
    requires |bs| == 4 && 0xF0 <= bs[0] < 0xF5
    requires MayFollow(bs[0], bs[1]) && Continues(bs[2]) && Continues(bs[3])
    ensures IsCodePoint(Decode(bs)) && Encode(Decode(bs)) == bs
  {
    LeadingByte(bs[0]);
    var lead: nat := bs[0] % 8;
    var g := lead * 0x40 + bs[1] % 0x40;
    var h := g * 0x40 + bs[2] % 0x40;
    BitsApart(lead, bs[1]);
    BitsApart(g, bs[2]);
    BitsApart(h, bs[3]);
    assert 0x1_0000 <= h * 0x40 + bs[3] % 0x40 < 0x11_0000;
    hide High, Low;
  }

  lemma {:induction false} RunesOfEncoding(cs: seq<CodePoint>)
    ensures Runes(EncodeAll(cs)) == cs
  {
    if cs != [] {
      FirstRuneOfEncoding(cs[0], EncodeAll(cs[1..]));
      RunesOfEncoding(cs[1..]);
      assert EncodeAll(cs)[|Encode(cs[0])|..] == EncodeAll(cs[1..]);
    }
  }

  lemma NoAsciiInLongRunes(bs: Bytes)
    requires bs != [] && bs[0] >= 0x80
    ensures FirstRune(bs) >= 0x80 && forall b | b in bs[..RuneLength(bs)] :: b >= 0x80
  {
    if RuneLength(bs) > 1 {
      DecodedIsCodePoint(bs);
    }
  }
}
