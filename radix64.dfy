/** The one-shot radix-64 codec of OpenPGP (section 6.3 of RFC 4880): the
    alphabet and `=` padding of section 4 of RFC 4648, with bytes taken
    three at a time into four characters and back. This is the table-lookup
    codec the library falls back on when the platform offers neither a
    `Buffer` nor `btoa`/`atob`; the model uses it as its only primitive. */
module Radix64 {
  import opened JsBits

  /** One element of a Uint8Array. */
  type byte = x: int | 0 <= x < 256

  /** The 64 characters of the alphabet: A-Z, a-z, 0-9, '+', '/'. */
  predicate IsBase64Char(c: char)
  {
    'A' <= c <= 'Z' || 'a' <= c <= 'z' || '0' <= c <= '9' || c == '+' || c == '/'
  }

  /** The characters the decoder keeps, the class `[A-Za-z0-9+/=]`. */
  predicate IsKept(c: char)
  {
    IsBase64Char(c) || c == '='
  }

  /** Text made only of characters the decoder keeps. */
  predicate AllKept(s: string)
  {
    forall k :: 0 <= k < |s| ==> IsKept(s[k])
  }

  /** `base64chars.charAt(v)`: entry v of the alphabet table. */
  function CharAt(v: int): (c: char)
    requires 0 <= v < 64
    ensures IsBase64Char(c)
  {
    // 'A'.., 'a'.., '0'.., '+', '/'
    (if v < 26 then 65 + v else if v < 52 then 71 + v else if v < 62 then v - 4
     else if v == 62 then 43 else 47) as char
  }

  const UpperLetters: string := "ABCDEFGHIJKLMNOPQRSTUVWXYZ"
  const LowerLetters: string := "abcdefghijklmnopqrstuvwxyz"
  const DigitsAndSigns: string := "0123456789+/"

  /** The table `base64chars` of the one-shot encoder, written as its
      three runs: joined, they are the 64-character string of the source. */
  const Base64Chars: string := UpperLetters + LowerLetters + DigitsAndSigns

  /** Entries 0..25 of the table: the capital letters in order. */
  lemma CharAtUpper(v: int)
    requires 0 <= v < 26
    ensures CharAt(v) == Base64Chars[v]
  {
    assert Base64Chars[v] == UpperLetters[v];
  }

  /** Entries 26..51 of the table: the small letters in order. */
  lemma CharAtLower(v: int)
    requires 26 <= v < 52
    ensures CharAt(v) == Base64Chars[v]
  {
    assert Base64Chars[v] == LowerLetters[v - 26];
  }

  /** Entries 52..63 of the table: the digits in order, then '+' and '/'. */
  lemma CharAtDigits(v: int)
    requires 52 <= v < 64
    ensures CharAt(v) == Base64Chars[v]
  {
    assert Base64Chars[v] == DigitsAndSigns[v - 52];
  }

  /** Every entry of the table is `base64chars.charAt(v)`. */
  lemma CharAtTable(v: int)
    requires 0 <= v < 64
    ensures |Base64Chars| == 64 && CharAt(v) == Base64Chars[v]
  {
    if v < 26 {
      CharAtUpper(v);
    } else if v < 52 {
      CharAtLower(v);
    } else {
      CharAtDigits(v);
    }
  }

  /** `base64chars.indexOf(c)`: the position of c in the table, -1 when c
      is not in it (in particular for '='). */
  function IndexOf(c: char): (r: int)
    ensures -1 <= r < 64
    ensures r == -1 <==> !IsBase64Char(c)
    ensures r != -1 ==> CharAt(r) == c
  {
    if 'A' <= c <= 'Z' then c as int - 65
    else if 'a' <= c <= 'z' then c as int - 71
    else if '0' <= c <= '9' then c as int + 4
    else if c == '+' then 62
    else if c == '/' then 63
    else -1
  }

  /** The table has no repeated character, so indexOf finds every entry at
      its own position. */
  lemma IndexOfCharAt(v: int)
    requires 0 <= v < 64
    ensures IndexOf(CharAt(v)) == v
  {
  }

  // ---------------------------------------------------------------------
  // Encoding

  /** `inBytes.charCodeAt(k)` as an operand of a shift or a mask: past the
      end of a short group it is NaN, which every bitwise operator reads
      as 0. */
  function CodeAt(g: seq<byte>, k: nat): byte
  {
    if k < |g| then g[k] else 0
  }

  lemma Pow2Table()
    ensures Pow2(2) == 4 && Pow2(4) == 16 && Pow2(6) == 64
  {
  }

  /** The four sextets a group's character codes are cut into: six bits
      at a time from the most significant. */
  function Sextets(c0: byte, c1: byte, c2: byte): (int, int, int, int)
  {
    (c0 / 4, c0 % 4 * 16 + c1 / 16, c1 % 16 * 4 + c2 / 64, c2 % 64)
  }

  /** `((c0 & 3) << 4) | (c1 >> 4)`: the second sextet. */
  lemma SecondSextetByBitOps(c0: byte, c1: byte)
    ensures Sextets(c0, c1, 0).1 == Or(Shl(LowBits(c0, 2), 4), Shr(c1, 4))
  {
    Pow2Table();
    var a, b := LowBits(c0, 2), Shr(c1, 4);
    assert a == c0 % 4 && b == c1 / 16;
    OrDisjoint(a, b, 4);
  }

  /** `((c1 & 15) << 2) | (c2 >> 6)`: the third sextet. */
  lemma ThirdSextetByBitOps(c1: byte, c2: byte)
    ensures Sextets(0, c1, c2).2 == Or(Shl(LowBits(c1, 4), 2), Shr(c2, 6))
  {
    Pow2Table();
    var d, e := LowBits(c1, 4), Shr(c2, 6);
    assert d == c1 % 16 && e == c2 / 64;
    OrDisjoint(d, e, 2);
  }

  /** The encoder's expressions `c0 >> 2`, `((c0 & 3) << 4) | (c1 >> 4)`,
      `((c1 & 15) << 2) | (c2 >> 6)` and `c2 & 63` compute the sextets. */
  lemma SextetsByBitOps(c0: byte, c1: byte, c2: byte)
    ensures Sextets(c0, c1, c2)
         == (Shr(c0, 2), Or(Shl(LowBits(c0, 2), 4), Shr(c1, 4)),
             Or(Shl(LowBits(c1, 4), 2), Shr(c2, 6)), LowBits(c2, 6))
  {
    Pow2Table();
    SecondSextetByBitOps(c0, c1);
    ThirdSextetByBitOps(c1, c2);
  }

  /** '=' occurs in s exactly at its last p positions. */
  ghost predicate PaddedWith(s: string, p: nat)
  {
    forall k :: 0 <= k < |s| ==> (s[k] == '=' <==> |s| - p <= k)
  }

  /** Sextet k of a group, from its character codes. */
  function SextetOf(g: seq<byte>, k: nat): (s: int)
    requires k < 4
    ensures 0 <= s < 64
  {
    var (s0, s1, s2, s3) := Sextets(CodeAt(g, 0), CodeAt(g, 1), CodeAt(g, 2));
    if k == 0 then s0 else if k == 1 then s1 else if k == 2 then s2 else s3
  }

  /** Output character k of a group: '=' when the group has fewer than k
      bytes (`inBytes.length < k`), otherwise the table entry of sextet k.
      (The tests `inBytes.length < 0` and `< 1` never hold: a group is never
      empty.) */
  function GroupChar(g: seq<byte>, k: nat): char
    requires k < 4
  {
    if |g| < k then '=' else CharAt(SextetOf(g, k))
  }

  /** Characters k, k + 1, .., 3 of a group's encoding, appended one after
      the other as the loop body does. */
  function GroupFrom(g: seq<byte>, k: nat): (r: string)
    requires k <= 4
    ensures |r| == 4 - k
    decreases 4 - k
  {
    if k == 4 then "" else [GroupChar(g, k)] + GroupFrom(g, k + 1)
  }

  /** One pass of the encoding loop: a group of one to three bytes becomes
      four characters, the positions of the missing bytes written as '='. */
  function EncodeGroup(g: seq<byte>): (r: string)
    requires 1 <= |g| <= 3
    ensures |r| == 4
  {
    GroupFrom(g, 0)
  }

  /** The four characters of a group's encoding. */
  lemma EncodeGroupChars(g: seq<byte>)
    requires 1 <= |g| <= 3
    ensures EncodeGroup(g) == [GroupChar(g, 0), GroupChar(g, 1), GroupChar(g, 2), GroupChar(g, 3)]
  {
    assert GroupFrom(g, 3) == [GroupChar(g, 3)] + "";
    assert GroupFrom(g, 2) == [GroupChar(g, 2)] + GroupFrom(g, 3);
    assert GroupFrom(g, 1) == [GroupChar(g, 1)] + GroupFrom(g, 2);
    assert GroupFrom(g, 0) == [GroupChar(g, 0)] + GroupFrom(g, 1);
  }

  /** The group's four characters: '=' exactly after the first |g| + 1,
      the others from the alphabet. */
  lemma EncodeGroupShape(g: seq<byte>)
    requires 1 <= |g| <= 3
    ensures PaddedWith(EncodeGroup(g), 3 - |g|)
    ensures AllKept(EncodeGroup(g))
  {
    EncodeGroupChars(g);
  }

  /** Number of '=' an input of n bytes is padded with. */
  function PadCount(n: nat): nat
  {
    (3 - n % 3) % 3
  }

  /** `encodeChunk`: the input taken three bytes at a time, each group
      encoded in turn. */
  function EncodeChunk(input: seq<byte>): (output: string)
    decreases |input|
  {
    if |input| == 0 then ""
    else
      var n := if |input| < 3 then |input| else 3;
      EncodeGroup(input[..n]) + EncodeChunk(input[n..])
  }

  // ---------------------------------------------------------------------
  // Decoding

  /** `input.replace(/[^A-Za-z0-9\+\/\=]/g, "")`. */
  function Filter(s: string): (r: string)
    ensures |r| <= |s|
    ensures AllKept(r)
  {
    if |s| == 0 then ""
    else (if IsKept(s[0]) then [s[0]] else []) + Filter(s[1..])
  }

  /** `base64chars.indexOf(inBytes[k])`: -1 for '=', and also past the end
      of a short group, where `inBytes[k]` is undefined. */
  function SextetAt(g: string, k: nat): (r: int)
    ensures -1 <= r < 64
  {
    if k < |g| then IndexOf(g[k]) else -1
  }

  /** `inBytes[k] == '='`; an undefined `inBytes[k]` is not '='. */
  predicate IsPadAt(g: string, k: nat)
  {
    k < |g| && g[k] == '='
  }

  /** The three bytes four sextets are joined into, as 32-bit results. For
      sextets in range they are the bytes the sextets were cut from; a
      sextet of -1 (a missing or foreign character) makes the result it
      ends negative. */
  function Join(i0: int, i1: int, i2: int, i3: int): (int, int, int)
  {
    (if i1 == -1 then -1 else i0 * 4 + i1 / 16,
     if i2 == -1 then -1 else i1 % 16 * 16 + i2 / 4,
     if i3 == -1 then -1 else i2 % 4 * 64 + i3)
  }

  /** `(i0 << 2) | (i1 >> 4)`: the first joined value. */
  lemma JoinFirstByBitOps(i0: int, i1: int)
    requires -1 <= i0 < 64 && -1 <= i1 < 64
    ensures Join(i0, i1, 0, 0).0 == Or(Shl(i0, 2), Shr(i1, 4))
  {
    Pow2Table();
    var a := Shr(i1, 4);
    assert -1 <= a < 4;
    ShlOr(i0, 2, a);
  }

  /** `((i1 & 15) << 4) | (i2 >> 2)`: the second joined value. */
  lemma JoinSecondByBitOps(i1: int, i2: int)
    requires -1 <= i1 < 64 && -1 <= i2 < 64
    ensures Join(0, i1, i2, 0).1 == Or(Shl(LowBits(i1, 4), 4), Shr(i2, 2))
  {
    Pow2Table();
    var b, c := LowBits(i1, 4), Shr(i2, 2);
    assert b == i1 % 16 && -1 <= c < 16;
    ShlOr(b, 4, c);
  }

  /** `((i2 & 3) << 6) | i3`: the third joined value. */
  lemma JoinThirdByBitOps(i2: int, i3: int)
    requires -1 <= i2 < 64 && -1 <= i3 < 64
    ensures Join(0, 0, i2, i3).2 == Or(Shl(LowBits(i2, 2), 6), i3)
  {
    Pow2Table();
    var d := LowBits(i2, 2);
    assert d == i2 % 4;
    ShlOr(d, 6, i3);
  }

  /** The decoder's expressions `(i0 << 2) | (i1 >> 4)`,
      `((i1 & 15) << 4) | (i2 >> 2)` and `((i2 & 3) << 6) | i3` compute the
      joined values for every sextet indexOf can return, -1 included. */
  lemma JoinByBitOps(i0: int, i1: int, i2: int, i3: int)
    requires -1 <= i0 < 64 && -1 <= i1 < 64 && -1 <= i2 < 64 && -1 <= i3 < 64
    ensures Join(i0, i1, i2, i3)
         == (Or(Shl(i0, 2), Shr(i1, 4)), Or(Shl(LowBits(i1, 4), 4), Shr(i2, 2)),
             Or(Shl(LowBits(i2, 2), 6), i3))
  {
    JoinFirstByBitOps(i0, i1);
    JoinSecondByBitOps(i1, i2);
    JoinThirdByBitOps(i2, i3);
  }

  /** Byte k of a group: the k-th joined value of its sextets, through
      `String.fromCharCode` and the final Uint8Array. */
  function GroupByte(g: string, k: nat): byte
    requires k < 3
  {
    var (b0, b1, b2) := Join(SextetAt(g, 0), SextetAt(g, 1), SextetAt(g, 2), SextetAt(g, 3));
    ToUint8(if k == 0 then b0 else if k == 1 then b1 else b2)
  }

  /** Bytes k, k + 1, .., 2 of a group: byte k is appended unless character
      k + 1 is '='. */
  function DecodeFrom(g: string, k: nat): seq<byte>
    requires k <= 3
    decreases 3 - k
  {
    if k == 3 then []
    else (if IsPadAt(g, k + 1) then [] else [GroupByte(g, k)]) + DecodeFrom(g, k + 1)
  }

  /** One pass of the decoding loop: up to three bytes out of a group of one
      to four characters, one byte skipped per '=' at positions 1, 2, 3. A
      missing or foreign sextet reads -1 and turns the bytes it takes part
      in into garbage (the low bits of a negative number), never an error. */
  function DecodeGroup(g: string): seq<byte>
    requires 1 <= |g| <= 4
  {
    DecodeFrom(g, 0)
  }

  /** The bytes of a group's decoding. */
  lemma DecodeGroupBytes(g: string)
    requires 1 <= |g| <= 4
    ensures DecodeGroup(g) == (if IsPadAt(g, 1) then [] else [GroupByte(g, 0)])
                            + (if IsPadAt(g, 2) then [] else [GroupByte(g, 1)])
                            + (if IsPadAt(g, 3) then [] else [GroupByte(g, 2)])
  {
    var p0 := if IsPadAt(g, 1) then [] else [GroupByte(g, 0)];
    var p1 := if IsPadAt(g, 2) then [] else [GroupByte(g, 1)];
    var p2 := if IsPadAt(g, 3) then [] else [GroupByte(g, 2)];
    assert DecodeFrom(g, 2) == p2 + [];
    assert DecodeFrom(g, 1) == p1 + DecodeFrom(g, 2);
    assert DecodeFrom(g, 0) == p0 + DecodeFrom(g, 1);
    assert p0 + (p1 + p2) == p0 + p1 + p2;
  }

  /** The decoding loop over a filtered string, four characters at a time. */
  function DecodeGroups(s: string): seq<byte>
    decreases |s|
  {
    if |s| == 0 then []
    else
      var n := if |s| < 4 then |s| else 4;
      DecodeGroup(s[..n]) + DecodeGroups(s[n..])
  }

  /** `decodeChunk`: discard every character outside the alphabet and '=',
      then decode the rest four characters at a time. */
  function DecodeChunk(input: string): seq<byte>
  {
    DecodeGroups(Filter(input))
  }

  // ---------------------------------------------------------------------
  // Properties

  lemma PaddedAppend(a: string, b: string, p: nat)
    requires PaddedWith(a, 0) && PaddedWith(b, p) && p <= |b|
    ensures PaddedWith(a + b, p)
  {
    forall k | 0 <= k < |a + b|
      ensures (a + b)[k] == '=' <==> |a + b| - p <= k
    {
      if k >= |a| {
        assert (a + b)[k] == b[k - |a|];
      }
    }
  }

  /** Four characters per group of three bytes or fewer. */
  lemma {:induction false} EncodeChunkLength(input: seq<byte>)
    ensures |EncodeChunk(input)| == 4 * ((|input| + 2) / 3)
    decreases |input|
  {
    if |input| > 0 {
      var n := if |input| < 3 then |input| else 3;
      EncodeChunkLength(input[n..]);
      assert |EncodeGroup(input[..n])| == 4;
      assert EncodeChunk(input) == EncodeGroup(input[..n]) + EncodeChunk(input[n..]);
      assert (|input| + 2) / 3 == 1 + (|input| - n + 2) / 3;
    }
  }

  /** Every character written is in the alphabet or is '='. */
  lemma {:induction false} EncodeChunkKept(input: seq<byte>)
    ensures AllKept(EncodeChunk(input))
    decreases |input|
  {
    if |input| > 0 {
      var n := if |input| < 3 then |input| else 3;
      EncodeChunkKept(input[n..]);
      EncodeGroupShape(input[..n]);
      KeptAppend(EncodeGroup(input[..n]), EncodeChunk(input[n..]));
    }
  }

  /** The padding: '=' fills exactly the last PadCount(|input|) positions. */
  lemma {:induction false} EncodeChunkPadding(input: seq<byte>)
    ensures PaddedWith(EncodeChunk(input), PadCount(|input|))
    decreases |input|
  {
    if |input| == 0 {
    } else if |input| <= 3 {
      assert input[..|input|] == input && input[|input|..] == [];
      assert EncodeChunk(input) == EncodeGroup(input) + "";
      EncodeGroupShape(input);
      assert PadCount(|input|) == 3 - |input|;
    } else {
      var g, rest := input[..3], input[3..];
      var head, tail := EncodeGroup(g), EncodeChunk(rest);
      assert EncodeChunk(input) == head + tail;
      EncodeChunkPadding(rest);
      EncodeChunkLength(rest);
      EncodeGroupShape(g);
      PadCountStep(|rest|);
      PaddedAppend(head, tail, PadCount(|rest|));
    }
  }

  lemma PadCountStep(n: nat)
    ensures PadCount(n + 3) == PadCount(n) <= 2
  {
  }

  lemma KeptAppend(a: string, b: string)
    requires AllKept(a) && AllKept(b)
    ensures AllKept(a + b)
  {
    assert forall k :: 0 <= k < |b| ==> (a + b)[|a| + k] == b[k];
  }

  /** A byte missing from the last group is encoded as if it were 0. */
  lemma MissingBytesReadZero(g: seq<byte>)
    requires 1 <= |g| < 3
    ensures EncodeGroup(g)[..|g| + 1] == EncodeGroup(g + [0, 0][..3 - |g|])[..|g| + 1]
  {
    var h := g + [0, 0][..3 - |g|];
    assert CodeAt(g, 0) == CodeAt(h, 0) && CodeAt(g, 1) == CodeAt(h, 1) && CodeAt(g, 2) == CodeAt(h, 2);
    EncodeGroupChars(g);
    EncodeGroupChars(h);
  }

  /** Joining the sextets of three bytes gives the bytes back, each from
      the two sextets it was spread over. */
  lemma JoinSextets(g: seq<byte>)
    ensures SextetOf(g, 0) * 4 + SextetOf(g, 1) / 16 == CodeAt(g, 0)
    ensures SextetOf(g, 1) % 16 * 16 + SextetOf(g, 2) / 4 == CodeAt(g, 1)
    ensures SextetOf(g, 2) % 4 * 64 + SextetOf(g, 3) == CodeAt(g, 2)
  {
    var c0, c1, c2 := CodeAt(g, 0), CodeAt(g, 1), CodeAt(g, 2);
    var s1, s2 := SextetOf(g, 1), SextetOf(g, 2);
    assert s1 == c0 % 4 * 16 + c1 / 16;
    assert s2 == c1 % 16 * 4 + c2 / 64;
    assert s1 / 16 == c0 % 4 && s1 % 16 == c1 / 16;
    assert s2 / 4 == c1 % 16 && s2 % 4 == c2 / 64;
  }

  /** Byte k of a group is c when sextets k and k + 1 are in range and
      join to c. */
  lemma GroupByteJoined(e: string, k: nat, c: byte)
    requires k < 3 && 0 <= SextetAt(e, k) && 0 <= SextetAt(e, k + 1)
    requires k == 0 ==> SextetAt(e, 0) * 4 + SextetAt(e, 1) / 16 == c
    requires k == 1 ==> SextetAt(e, 1) % 16 * 16 + SextetAt(e, 2) / 4 == c
    requires k == 2 ==> SextetAt(e, 2) % 4 * 64 + SextetAt(e, 3) == c
    ensures GroupByte(e, k) == c
  {
  }

  /** The characters of an encoded group read back as its sextets, and
      the positions after them as padding. */
  lemma EncodeGroupSextets(g: seq<byte>)
    requires 1 <= |g| <= 3
    ensures forall k :: 0 <= k <= |g| ==> SextetAt(EncodeGroup(g), k) == SextetOf(g, k)
    ensures forall k :: |g| < k < 4 ==> IsPadAt(EncodeGroup(g), k)
  {
    EncodeGroupChars(g);
    forall k | 0 <= k <= |g|
      ensures SextetAt(EncodeGroup(g), k) == SextetOf(g, k)
    {
      IndexOfCharAt(SextetOf(g, k));
    }
  }

  /** Every byte of a group is decoded back from its encoding. */
  lemma GroupByteOfEncoded(g: seq<byte>, k: nat)
    requires 1 <= |g| <= 3 && k < |g|
    ensures GroupByte(EncodeGroup(g), k) == g[k]
  {
    JoinSextets(g);
    EncodeGroupSextets(g);
    GroupByteJoined(EncodeGroup(g), k, CodeAt(g, k));
  }

  /** Decoding undoes the encoding of one group. */
  lemma DecodeEncodeGroup(g: seq<byte>)
    requires 1 <= |g| <= 3
    ensures DecodeGroup(EncodeGroup(g)) == g
  {
    var e := EncodeGroup(g);
    EncodeGroupSextets(g);
    DecodeGroupBytes(e);
    GroupByteOfEncoded(g, 0);
    if |g| == 1 {
      assert IsPadAt(e, 2) && IsPadAt(e, 3);
      assert DecodeGroup(e) == [g[0]];
    } else if |g| == 2 {
      GroupByteOfEncoded(g, 1);
      assert IsPadAt(e, 3);
      assert DecodeGroup(e) == [g[0], g[1]];
    } else {
      GroupByteOfEncoded(g, 1);
      GroupByteOfEncoded(g, 2);
      assert DecodeGroup(e) == [g[0], g[1], g[2]];
    }
  }

  /** The encoding loop advances three bytes at a time, so an input whose
      length is a multiple of three can be encoded in two pieces. */
  lemma {:induction false} EncodeChunkAppend(a: seq<byte>, b: seq<byte>, k: nat)
    requires |a| == 3 * k
    ensures EncodeChunk(a + b) == EncodeChunk(a) + EncodeChunk(b)
    decreases k
  {
    if k == 0 {
      assert a + b == b;
    } else {
      assert (a + b)[..3] == a[..3] && (a + b)[3..] == a[3..] + b;
      EncodeChunkAppend(a[3..], b, k - 1);
    }
  }

  /** Decoding reads back every byte sequence the encoder writes. */
  lemma {:induction false} DecodeEncode(input: seq<byte>)
    ensures DecodeChunk(EncodeChunk(input)) == input
  {
    EncodeChunkKept(input);
    FilterClean(EncodeChunk(input));
    DecodeGroupsEncode(input);
  }

  lemma {:induction false} DecodeGroupsEncode(input: seq<byte>)
    ensures DecodeGroups(EncodeChunk(input)) == input
    decreases |input|
  {
    if |input| > 0 {
      var n := if |input| < 3 then |input| else 3;
      var g, rest := input[..n], input[n..];
      var head, tail := EncodeGroup(g), EncodeChunk(rest);
      assert EncodeChunk(input) == head + tail;
      DecodeGroupsCons(head, tail);
      DecodeEncodeGroup(g);
      DecodeGroupsEncode(rest);
      assert input == g + rest;
    }
  }

  /** The decoding loop's first pass over a text that starts with a whole
      group. */
  lemma DecodeGroupsCons(head: string, tail: string)
    requires |head| == 4
    ensures DecodeGroups(head + tail) == DecodeGroup(head) + DecodeGroups(tail)
  {
    assert (head + tail)[..4] == head && (head + tail)[4..] == tail;
  }

  /** Filtering distributes over concatenation. */
  lemma {:induction false} FilterAppend(a: string, b: string)
    ensures Filter(a + b) == Filter(a) + Filter(b)
    decreases |a|
  {
    if |a| == 0 {
      assert a + b == b;
    } else {
      assert a + b == [a[0]] + (a[1..] + b) && a == [a[0]] + a[1..];
      FilterCons(a[0], a[1..] + b);
      FilterCons(a[0], a[1..]);
      FilterAppend(a[1..], b);
    }
  }

  /** The filter's first step. */
  lemma FilterCons(x: char, t: string)
    ensures Filter([x] + t) == (if IsKept(x) then [x] else []) + Filter(t)
  {
    assert ([x] + t)[0] == x && ([x] + t)[1..] == t;
  }

  /** A string made only of kept characters passes the filter unchanged. */
  lemma {:induction false} FilterClean(s: string)
    requires AllKept(s)
    ensures Filter(s) == s
    decreases |s|
  {
    if |s| > 0 {
      FilterClean(s[1..]);
    }
  }

  /** Decoding the filtered text is decoding the text. */
  lemma DecodeChunkFiltered(s: string)
    ensures DecodeChunk(Filter(s)) == DecodeChunk(s)
  {
    FilterClean(Filter(s));
  }

  /** A character outside the alphabet and '=' may be inserted anywhere
      without changing what the text decodes to. */
  lemma DecodeChunkIgnores(a: string, c: char, b: string)
    requires !IsKept(c)
    ensures DecodeChunk(a + [c] + b) == DecodeChunk(a + b)
  {
    assert Filter([c]) == [] by {
      assert [c][1..] == [];
    }
    calc {
      Filter(a + [c] + b);
      { FilterAppend(a + [c], b); }
      Filter(a + [c]) + Filter(b);
      { FilterAppend(a, [c]); }
      Filter(a) + Filter(b);
      { FilterAppend(a, b); }
      Filter(a + b);
    }
  }

  /** The decoding loop advances four characters at a time. */
  lemma {:induction false} DecodeGroupsAppend(a: string, b: string)
    requires |a| % 4 == 0
    ensures DecodeGroups(a + b) == DecodeGroups(a) + DecodeGroups(b)
    decreases |a|
  {
    if |a| == 0 {
      assert a + b == b;
    } else {
      assert (a + b)[..4] == a[..4] && (a + b)[4..] == a[4..] + b;
      DecodeGroupsAppend(a[4..], b);
    }
  }

  /** Text whose kept characters come in whole groups of four can be
      decoded in two pieces. */
  lemma DecodeChunkAppend(a: string, b: string)
    requires |Filter(a)| % 4 == 0
    ensures DecodeChunk(a + b) == DecodeChunk(a) + DecodeChunk(b)
  {
    FilterAppend(a, b);
    DecodeGroupsAppend(Filter(a), Filter(b));
  }

  /** The letter 'a' (0x61) encodes as "YQ==". */
  lemma EncodeExample()
    ensures EncodeChunk([0x61]) == "YQ=="
  {
    var g: seq<byte> := [0x61];
    EncodeGroupChars(g);
    assert SextetOf(g, 0) == 24 && SextetOf(g, 1) == 16;
    assert CharAt(24) == 'Y' && CharAt(16) == 'Q';
    assert EncodeGroup(g) == "YQ==";
    assert g[..1] == g && g[1..] == [];
  }

  /** "YQ==" decodes to 'a'. */
  lemma DecodeExample()
    ensures DecodeChunk("YQ==") == [0x61]
  {
    EncodeExample();
    DecodeEncode([0x61]);
  }

  /** A trailing line break is skipped. */
  lemma TrailingNewlineExample()
    ensures DecodeChunk("YQ==\n") == [0x61]
  {
    DecodeExample();
    assert "YQ==\n" == "YQ==" + ['\n'] + "";
    DecodeChunkIgnores("YQ==", '\n', "");
  }

  /** A group that starts with '=': the first joined value is
      (-1 << 2) | 1 == -3, stored as its low 8 bits 0xFD. */
  lemma LeadingPadExample()
    ensures DecodeChunk("=QAA") == [0xFD, 0x00, 0x00]
  {
    var g := "=QAA";
    assert Filter(g) == g by {
      assert g[1..] == "QAA" && "QAA"[1..] == "AA" && "AA"[1..] == "A" && "A"[1..] == "";
    }
    assert g[..4] == g && g[4..] == "";
    assert SextetAt(g, 0) == -1 && SextetAt(g, 1) == 16 && SextetAt(g, 2) == 0 && SextetAt(g, 3) == 0;
    DecodeGroupBytes(g);
  }

  /** s with c written after each of its characters. */
  function Interleave(s: string, c: char): (r: string)
    ensures |r| == 2 * |s|
  {
    if |s| == 0 then "" else [s[0], c] + Interleave(s[1..], c)
  }

  /** Writing a skipped character after every character of the text does
      not change what it decodes to. */
  lemma {:induction false} DecodeChunkInterleaved(s: string, c: char)
    requires !IsKept(c)
    ensures DecodeChunk(Interleave(s, c)) == DecodeChunk(s)
  {
    FilterInterleave(s, c);
  }

  lemma {:induction false} FilterInterleave(s: string, c: char)
    requires !IsKept(c)
    ensures Filter(Interleave(s, c)) == Filter(s)
    decreases |s|
  {
    if |s| > 0 {
      var t := Interleave(s[1..], c);
      assert Interleave(s, c) == [s[0]] + ([c] + t);
      FilterCons(s[0], [c] + t);
      FilterCons(c, t);
      FilterCons(s[0], s[1..]);
      assert s == [s[0]] + s[1..];
      FilterInterleave(s[1..], c);
    }
  }

  /** A line break after every character is skipped. */
  lemma InterleavedExample()
    ensures DecodeChunk("Y\nQ\n=\n=\n") == [0x61]
  {
    DecodeExample();
    assert Interleave("YQ==", '\n') == "Y\nQ\n=\n=\n";
    DecodeChunkInterleaved("YQ==", '\n');
  }
}
