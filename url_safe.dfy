/** Conversions between byte arrays and one-line base64 strings, standard or
    URL-safe (section 5 of RFC 4648: '-' for '+', '_' for '/', no padding),
    built from string replacements around the streaming codec applied to a
    whole value: one feed followed by finish. */
module UrlSafe {
  import opened Radix64
  import opened StreamEncoder
  import opened StreamDecoder

  /** No character of s is in cs. */
  predicate NoneOf(s: string, cs: set<char>)
  {
    forall k :: 0 <= k < |s| ==> s[k] !in cs
  }

  /** `s.replace(/x/g, y)` for single characters x and y. */
  function ReplaceChar(s: string, x: char, y: char): (r: string)
    ensures |r| == |s|
    ensures forall k :: 0 <= k < |s| ==> r[k] == (if s[k] == x then y else s[k])
  {
    if |s| == 0 then "" else [if s[0] == x then y else s[0]] + ReplaceChar(s[1..], x, y)
  }

  /** `s.replace(/[...]/g, '')`: s without the characters of drop, the
      others kept in order. */
  function Remove(s: string, drop: set<char>): (r: string)
    ensures |r| <= |s|
    ensures NoneOf(r, drop)
    ensures forall k :: 0 <= k < |r| ==> r[k] in s
  {
    if |s| == 0 then ""
    else (if s[0] in drop then "" else [s[0]]) + Remove(s[1..], drop)
  }

  /** Removing characters that do not occur changes nothing. */
  lemma {:induction false} RemoveNone(s: string, drop: set<char>)
    requires NoneOf(s, drop)
    ensures Remove(s, drop) == s
    decreases |s|
  {
    if |s| > 0 {
      RemoveNone(s[1..], drop);
    }
  }

  /** Removal distributes over concatenation. */
  lemma {:induction false} RemoveAppend(a: string, b: string, drop: set<char>)
    ensures Remove(a + b, drop) == Remove(a, drop) + Remove(b, drop)
    decreases |a|
  {
    if |a| == 0 {
      assert a + b == b;
    } else {
      assert (a + b)[0] == a[0] && (a + b)[1..] == a[1..] + b;
      RemoveAppend(a[1..], b, drop);
    }
  }

  /** The line breaks `encode` writes. */
  const LineBreaks: set<char> := {'\r', '\n'}

  /** The standard alphabet's characters that are not URL-safe. */
  const Unsafe: set<char> := {'+', '/', '='}

  /** `uint8ArrayToB64`: the text `encode` writes for the whole array,
      without its line breaks, and in URL mode with '+' and '/' replaced by
      '-' and '_' and the padding dropped. */
  function Uint8ArrayToB64(bytes: seq<byte>, url: bool): (encoded: string)
    ensures NoneOf(encoded, LineBreaks)
    ensures url ==> NoneOf(encoded, Unsafe)
  {
    var encoded := Remove(Armor(bytes), LineBreaks);
    if url then Remove(ReplaceChar(ReplaceChar(encoded, '+', '-'), '/', '_'), {'='})
    else encoded
  }

  /** `b64ToUint8Array`: the URL-safe characters mapped back to '+' and
      '/', then `decode` of the whole string. */
  function B64ToUint8Array(base64: string): seq<byte>
  {
    DecodeWhole(ToStandard(base64))
  }

  function ToStandard(s: string): string
  {
    ReplaceChar(ReplaceChar(s, '-', '+'), '_', '/')
  }

  /** The one-shot `encode` of a whole array: one Feed and then Finish
      give its armored text. */
  method EncodeWhole(bytes: seq<byte>) returns (text: string)
    ensures text == Armor(bytes)
  {
    var encoder := new Encoder();
    var head := encoder.Feed(bytes);
    var tail := encoder.Finish();
    text := head + tail;
    assert [] + bytes == bytes;
  }

  /** Removing the line breaks from wrapped text gives the text back when
      it had none. */
  lemma {:induction false} RemoveWrap(e: string)
    requires NoneOf(e, LineBreaks)
    ensures Remove(Wrap(e), LineBreaks) == e
    decreases |e|
  {
    if |e| > 0 {
      var n := if |e| < 60 then |e| else 60;
      RemoveWrap(e[n..]);
      RemoveAppend(e[..n] + "\n", Wrap(e[n..]), LineBreaks);
      RemoveAppend(e[..n], "\n", LineBreaks);
      assert Remove("\n", LineBreaks) == "" by {
        assert "\n"[1..] == "";
      }
      RemoveNone(e[..n], LineBreaks);
      assert e == e[..n] + e[n..];
    }
  }

  lemma KeptHasNone(s: string, cs: set<char>)
    requires AllKept(s)
    requires forall c :: c in cs ==> !IsKept(c)
    ensures NoneOf(s, cs)
  {
  }

  /** In standard mode the result is `encodeChunk` of the whole array. */
  lemma StandardIsEncodeChunk(bytes: seq<byte>)
    ensures Uint8ArrayToB64(bytes, false) == EncodeChunk(bytes)
  {
    var e := EncodeChunk(bytes);
    EncodeChunkKept(bytes);
    KeptHasNone(e, LineBreaks);
    WrapIsArmor(bytes);
    RemoveWrap(e);
  }

  /** `b64ToUint8Array` reads back what `uint8ArrayToB64` writes in
      standard mode. */
  lemma StandardRoundTrip(bytes: seq<byte>)
    ensures B64ToUint8Array(Uint8ArrayToB64(bytes, false)) == bytes
  {
    var e := EncodeChunk(bytes);
    StandardIsEncodeChunk(bytes);
    EncodeChunkKept(bytes);
    assert ToStandard(e) == e;
    DecodeWholeEncode(bytes);
  }

  /** An array whose length is a multiple of three encodes without
      padding. */
  lemma WholeGroupsUnpadded(bytes: seq<byte>, k: nat)
    requires |bytes| == 3 * k
    ensures NoneOf(EncodeChunk(bytes), {'='})
  {
    var e := EncodeChunk(bytes);
    EncodeChunkPadding(bytes);
    PadCountWhole(k);
    forall i | 0 <= i < |e|
      ensures e[i] != '='
    {
    }
  }

  lemma {:induction false} PadCountWhole(k: nat)
    ensures PadCount(3 * k) == 0
  {
    if k > 0 {
      PadCountWhole(k - 1);
      PadCountStep(3 * (k - 1));
    }
  }

  /** In URL mode, for a length that needs no padding, the URL-safe
      characters map back to the standard ones. */
  lemma UrlSafeUndone(e: string)
    requires AllKept(e) && NoneOf(e, {'='})
    ensures ToStandard(Remove(ReplaceChar(ReplaceChar(e, '+', '-'), '/', '_'), {'='})) == e
  {
    var u := ReplaceChar(ReplaceChar(e, '+', '-'), '/', '_');
    RemoveNone(u, {'='});
    assert ToStandard(u) == e;
  }

  /** `b64ToUint8Array` reads back what `uint8ArrayToB64` writes in URL
      mode when the array length is a multiple of three. */
  lemma UrlRoundTrip(bytes: seq<byte>, k: nat)
    requires |bytes| == 3 * k
    ensures B64ToUint8Array(Uint8ArrayToB64(bytes, true)) == bytes
  {
    var e := EncodeChunk(bytes);
    StandardIsEncodeChunk(bytes);
    EncodeChunkKept(bytes);
    WholeGroupsUnpadded(bytes, k);
    UrlSafeUndone(e);
    DecodeWholeEncode(bytes);
  }

  lemma ReplaceExample()
    ensures ReplaceChar(ReplaceChar("YQ==", '+', '-'), '/', '_') == "YQ=="
  {
    var u := ReplaceChar(ReplaceChar("YQ==", '+', '-'), '/', '_');
    assert u[0] == 'Y' && u[1] == 'Q' && u[2] == '=' && u[3] == '=';
  }

  lemma RemovePaddingExample()
    ensures Remove("YQ==", {'='}) == "YQ"
  {
    assert "YQ=="[1..] == "Q==" && "Q=="[1..] == "==" && "=="[1..] == "=" && "="[1..] == "";
  }

  /** 'a' is written "YQ" in URL mode. */
  lemma UrlEncodeExample()
    ensures Uint8ArrayToB64([0x61], true) == "YQ"
  {
    EncodeExample();
    StandardIsEncodeChunk([0x61]);
    ReplaceExample();
    RemovePaddingExample();
  }

  /** "YQ" is held back by the cut and then decoded as a group missing two
      characters. */
  lemma DecodeShortExample()
    ensures DecodeWhole("YQ") == [0x61, 0xFF, 0xFF]
  {
    PiecesCuts();
    assert "YQ"[..0] == "" && "YQ"[0..] == "YQ";
    assert Filter("YQ") == "YQ" by {
      assert "YQ"[1..] == "Q" && "Q"[1..] == "";
    }
    assert "YQ"[..2] == "YQ" && "YQ"[2..] == "";
    assert SextetAt("YQ", 0) == 24 && SextetAt("YQ", 1) == 16 && SextetAt("YQ", 2) == -1;
    DecodeGroupBytes("YQ");
  }

  /** Otherwise the dropped padding is missed: "YQ", the URL-safe text of
      'a', reads back with two extra 0xFF bytes. */
  lemma UrlPaddingLost()
    ensures B64ToUint8Array(Uint8ArrayToB64([0x61], true)) == [0x61, 0xFF, 0xFF]
  {
    UrlEncodeExample();
    assert ToStandard("YQ") == "YQ";
    DecodeShortExample();
  }
}
