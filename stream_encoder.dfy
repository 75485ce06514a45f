/** The streaming radix-64 encoder: bytes arrive in chunks of any size,
    encoded text leaves in lines of 60 characters (45 bytes) each ended by
    "\n", and a final call flushes the shorter, padded last line. */
module StreamEncoder {
  import opened Radix64

  // A line holds 60 characters, which encode 60 * 3 / 4 = 45 bytes; the
  // two numbers are written out where they are used, so that the solver
  // sees products with them as linear.

  /** Encoded text cut into lines of 60 characters (the last one possibly
      shorter), each followed by "\n". */
  function Wrap(encoded: string): string
    decreases |encoded|
  {
    if |encoded| == 0 then ""
    else
      var n := if |encoded| < 60 then |encoded| else 60;
      encoded[..n] + "\n" + Wrap(encoded[n..])
  }

  /** The armored text of a whole input: 45 bytes per line, each line
      encoded on its own and ended by "\n", the last one possibly shorter;
      nothing at all for an empty input. */
  function Armor(data: seq<byte>): string
    decreases |data|
  {
    if |data| == 0 then ""
    else
      var n := if |data| < 45 then |data| else 45;
      EncodeChunk(data[..n]) + "\n" + Armor(data[n..])
  }

  /** The concatenation of the chunks of a stream. */
  function Concat(chunks: seq<seq<byte>>): seq<byte>
  {
    if |chunks| == 0 then [] else Concat(chunks[..|chunks| - 1]) + chunks[|chunks| - 1]
  }

  /** Text of at least one whole line: its first 60 characters make the
      first line. */
  lemma WrapFirstLine(encoded: string)
    requires |encoded| >= 60
    ensures Wrap(encoded) == encoded[..60] + "\n" + Wrap(encoded[60..])
  {
  }

  /** One whole line of input encodes to one whole line of text; a shorter
      one to at most a line. */
  lemma LineLength(data: seq<byte>)
    requires |data| <= 45
    ensures |EncodeChunk(data)| <= 60
    ensures |data| == 45 ==> |EncodeChunk(data)| == 60
  {
    EncodeChunkLength(data);
  }

  /** m whole lines of input encode to m whole lines of text. */
  lemma EncodedLines(data: seq<byte>, m: nat)
    requires |data| == 45 * m
    ensures |EncodeChunk(data)| == 60 * m
  {
    EncodeChunkLength(data);
    assert (45 * m + 2) / 3 == 15 * m;
  }

  /** Line i of wrapped text, for every line but the last. */
  lemma WrapStep(encoded: string, i: nat)
    requires 60 * i + 60 <= |encoded|
    ensures Wrap(encoded[60 * i..]) == encoded[60 * i .. 60 * i + 60] + "\n" + Wrap(encoded[60 * (i + 1)..])
  {
    var s := encoded[60 * i..];
    WrapFirstLine(s);
    assert s[..60] == encoded[60 * i .. 60 * i + 60];
    assert s[60..] == encoded[60 * (i + 1)..];
  }

  /** An input of at least one whole line: its first 45 bytes make the
      first line. */
  lemma ArmorFirstLine(data: seq<byte>)
    requires |data| >= 45
    ensures Armor(data) == EncodeChunk(data[..45]) + "\n" + Armor(data[45..])
  {
  }

  /** Encoding the whole input in one piece and wrapping the result at 60
      characters gives its armored text: the encoding's three-byte step lets
      the 45-byte lines be encoded separately. */
  lemma {:induction false} WrapIsArmor(data: seq<byte>)
    ensures Wrap(EncodeChunk(data)) == Armor(data)
    decreases |data|
  {
    var e := EncodeChunk(data);
    if |data| == 0 {
    } else if |data| < 45 {
      LineLength(data);
      assert e[..|e|] == e && e[|e|..] == "";
      assert data[..|data|] == data && data[|data|..] == [];
    } else {
      var line, rest := data[..45], data[45..];
      assert data == line + rest;
      EncodeChunkAppend(line, rest, 15);
      WrapIsArmor(rest);
      var head, tail := EncodeChunk(line), EncodeChunk(rest);
      LineLength(line);
      assert e == head + tail;
      assert e[..60] == head && e[60..] == tail;
      WrapFirstLine(e);
      ArmorFirstLine(data);
    }
  }

  /** Armored text of k whole lines followed by more input. */
  lemma {:induction false} ArmorAppend(a: seq<byte>, b: seq<byte>, k: nat)
    requires |a| == 45 * k
    ensures Armor(a + b) == Armor(a) + Armor(b)
    decreases k
  {
    if k == 0 {
      assert a + b == b;
    } else {
      assert (a + b)[..45] == a[..45];
      assert (a + b)[45..] == a[45..] + b;
      ArmorAppend(a[45..], b, k - 1);
    }
  }

  /** Cutting an input after its whole 45-byte lines: fewer than 45 bytes
      remain, the lines wrap to their armored text, and the rest is armored
      after them. */
  lemma WholeLines(all: seq<byte>, lines: nat, bytes: nat)
    requires lines == |all| / 45 && bytes == lines * 45
    ensures bytes <= |all| && |all| - bytes < 45
    ensures |all| < 45 ==> bytes == 0
    ensures |EncodeChunk(all[..bytes])| == 60 * lines
    ensures Wrap(EncodeChunk(all[..bytes])) + Armor(all[bytes..]) == Armor(all)
  {
    if |all| < 45 {
      assert lines == 0;
    }
    var front, back := all[..bytes], all[bytes..];
    EncodedLines(front, lines);
    assert all == front + back;
    ArmorAppend(front, back, lines);
    WrapIsArmor(front);
  }

  /** m whole lines of encoding wrap to m lines of 61 characters. */
  lemma {:induction false} WrapLength(encoded: string, m: nat)
    requires |encoded| == 60 * m
    ensures |Wrap(encoded)| == 61 * m
    decreases m
  {
    if m > 0 {
      WrapFirstLine(encoded);
      WrapLength(encoded[60..], m - 1);
    }
  }

  /** Segment i of m wrapped lines: `encoded.substr(60 * i, 60)` and then
      "\n". */
  lemma {:induction false} WrapSegment(encoded: string, m: nat, i: nat)
    requires |encoded| == 60 * m && i < m
    ensures |Wrap(encoded)| == 61 * m
    ensures Wrap(encoded)[61 * i .. 61 * i + 61] == encoded[60 * i .. 60 * i + 60] + "\n"
    decreases i
  {
    WrapLength(encoded, m);
    WrapFirstLine(encoded);
    var rest := encoded[60..];
    var w := Wrap(encoded);
    assert w == (encoded[..60] + "\n") + Wrap(rest);
    if i > 0 {
      WrapSegment(rest, m - 1, i - 1);
      assert w[61 * i .. 61 * i + 61] == Wrap(rest)[61 * (i - 1) .. 61 * (i - 1) + 61];
      assert encoded[60 * i .. 60 * i + 60] == rest[60 * (i - 1) .. 60 * (i - 1) + 60];
    }
  }

  /** The loop of `encode`'s chunk handler: pushes each of the 60-character
      lines of the encoding, then a "\n", and joins the pieces. */
  method WrapLines(encoded: string, lines: nat) returns (r: string)
    requires |encoded| == 60 * lines
    ensures r == Wrap(encoded)
  {
    r := "";
    var i := 0;
    while i < lines
      invariant 0 <= i <= lines
      invariant r + Wrap(encoded[60 * i..]) == Wrap(encoded)
    {
      var line := encoded[60 * i .. 60 * i + 60];
      WrapStep(encoded, i);
      r := r + line + "\n";
      i := i + 1;
    }
    assert encoded[60 * lines..] == "";
  }

  /** The closure `encode` keeps between chunks. */
  class Encoder {
    /** Bytes fed but not yet encoded. */
    var buf: seq<byte>

    /** Between calls fewer than one line of bytes is pending. */
    predicate Valid()
      reads this
    {
      |buf| < 45
    }

    constructor ()
      ensures buf == [] && Valid()
    {
      buf := [];
    }

    /** Appends a chunk, encodes as many whole 45-byte lines as the buffer
        holds and keeps the rest. */
    method Feed(value: seq<byte>) returns (out: string)
      modifies this
      ensures var all := old(buf) + value;
              var bytes := |all| / 45 * 45;
              buf == all[bytes..] && out == Wrap(EncodeChunk(all[..bytes]))
      ensures Valid()
      ensures |old(buf) + value| < 45 ==> out == "" && buf == old(buf) + value
      ensures out + Armor(buf) == Armor(old(buf) + value)
    {
      var all := buf + value;
      var lines := |all| / 45;
      var bytes := lines * 45;
      WholeLines(all, lines, bytes);
      var encoded := EncodeChunk(all[..bytes]);
      out := WrapLines(encoded, lines);
      buf := all[bytes..];
    }

    /** Flushes the rest: its encoding and a "\n", or nothing when no byte
        is pending. */
    method Finish() returns (out: string)
      requires Valid()
      ensures out == if |buf| > 0 then EncodeChunk(buf) + "\n" else ""
      ensures out == Armor(buf)
    {
      out := if |buf| > 0 then EncodeChunk(buf) + "\n" else "";
      if 0 < |buf| {
        assert buf[..|buf|] == buf && buf[|buf|..] == [];
      }
    }
  }

  lemma SplitAt(s: seq<byte>, n: nat)
    requires n <= |s|
    ensures s == s[..n] + s[n..]
  {
  }

  /** The first i + 1 chunks are the first i and chunk i. */
  lemma ConcatStep(chunks: seq<seq<byte>>, i: nat)
    requires i < |chunks|
    ensures Concat(chunks[..i + 1]) == Concat(chunks[..i]) + chunks[i]
  {
    assert chunks[..i + 1][..i] == chunks[..i];
  }

  /** One Feed of the stream, as far as the input is concerned: what has
      been encoded and what is kept still make up the chunks read so far. */
  lemma ConcatFeed(chunks: seq<seq<byte>>, i: nat, consumed: seq<byte>, before: seq<byte>,
                   front: seq<byte>, after: seq<byte>)
    requires i < |chunks|
    requires Concat(chunks[..i]) == consumed + before
    requires before + chunks[i] == front + after
    ensures Concat(chunks[..i + 1]) == (consumed + front) + after
  {
    ConcatStep(chunks, i);
    calc {
      Concat(chunks[..i + 1]);
      (consumed + before) + chunks[i];
      consumed + (before + chunks[i]);
      consumed + (front + after);
      (consumed + front) + after;
    }
  }

  /** One Feed of the stream, as far as the text is concerned: the k whole
      lines it encodes extend the text armored so far. */
  lemma ArmorFeed(consumed: seq<byte>, lines: nat, front: seq<byte>, k: nat)
    requires |consumed| == 45 * lines && |front| == 45 * k
    ensures |consumed + front| == 45 * (lines + k)
    ensures Armor(consumed) + Wrap(EncodeChunk(front)) == Armor(consumed + front)
  {
    WrapIsArmor(front);
    ArmorAppend(consumed, front, lines);
  }

  /** One Feed of the stream: with q = ⌊|before ++ chunk| / 45⌋, the q lines
      it encodes extend both what has been consumed and the text written. */
  lemma StreamStep(chunks: seq<seq<byte>>, i: nat, consumed: seq<byte>, lines: nat,
                   before: seq<byte>, out: string, after: seq<byte>)
      returns (front: seq<byte>, q: nat)
    requires i < |chunks|
    requires Concat(chunks[..i]) == consumed + before
    requires |consumed| == 45 * lines
    requires after == (before + chunks[i])[|before + chunks[i]| / 45 * 45..]
    requires out == Wrap(EncodeChunk((before + chunks[i])[..|before + chunks[i]| / 45 * 45]))
    ensures Concat(chunks[..i + 1]) == (consumed + front) + after
    ensures |consumed + front| == 45 * (lines + q)
    ensures Armor(consumed) + out == Armor(consumed + front)
  {
    var all := before + chunks[i];
    q := |all| / 45;
    front := all[..q * 45];
    WholeLines(all, q, q * 45);
    SplitAt(all, q * 45);
    ConcatFeed(chunks, i, consumed, before, front, after);
    ArmorFeed(consumed, lines, front, q);
  }

  /** The Finish of the stream: the last line completes the armored text. */
  lemma StreamEnd(chunks: seq<seq<byte>>, consumed: seq<byte>, lines: nat, rest: seq<byte>, last: string)
    requires Concat(chunks) == consumed + rest
    requires |consumed| == 45 * lines && |rest| < 45
    requires last == Armor(rest)
    ensures Armor(consumed) + last == Armor(Concat(chunks))
  {
    ArmorAppend(consumed, rest, lines);
  }

  /** `encode` over a stream: one Feed per chunk, in order, then Finish.
      However the input is cut into chunks, the text is its armored text. */
  method EncodeStream(chunks: seq<seq<byte>>) returns (text: string)
    ensures text == Armor(Concat(chunks))
  {
    var encoder := new Encoder();
    text := "";
    ghost var consumed: seq<byte> := [];
    ghost var lines: nat := 0;
    var i := 0;
    while i < |chunks|
      invariant 0 <= i <= |chunks|
      invariant encoder.Valid()
      invariant Concat(chunks[..i]) == consumed + encoder.buf
      invariant |consumed| == 45 * lines
      invariant text == Armor(consumed)
    {
      ghost var before := encoder.buf;
      var out := encoder.Feed(chunks[i]);
      ghost var front, q := StreamStep(chunks, i, consumed, lines, before, out, encoder.buf);
      text := text + out;
      consumed := consumed + front;
      lines := lines + q;
      i := i + 1;
    }
    var last := encoder.Finish();
    assert chunks[..|chunks|] == chunks;
    StreamEnd(chunks, consumed, lines, encoder.buf, last);
    text := text + last;
  }
}
