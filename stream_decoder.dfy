/** The streaming radix-64 decoder: text arrives in chunks of any size; each
    chunk is appended to a pending buffer, the whitespace in the buffer is
    counted, a cut point is found by backtracking from the end, the text
    before the cut is decoded and the rest is kept for the next chunk. */
module StreamDecoder {
  import opened Radix64
  import opened StreamEncoder

  /** The characters `decode` treats as whitespace. */
  const SpaceChars: string := [' ', '\t', '\r', '\n']

  /** `spacechars.includes(c)`. */
  predicate IsSpace(c: char)
  {
    c in SpaceChars
  }

  /** Number of occurrences of c in s. */
  function Occurrences(s: string, c: char): nat
  {
    if |s| == 0 then 0
    else Occurrences(s[..|s| - 1], c) + (if s[|s| - 1] == c then 1 else 0)
  }

  /** Occurrences in s of the characters of cs, one after the other. */
  function OccurrencesIn(s: string, cs: seq<char>): nat
  {
    if |cs| == 0 then 0
    else OccurrencesIn(s, cs[..|cs| - 1]) + Occurrences(s, cs[|cs| - 1])
  }

  /** Number of whitespace characters in s. */
  function Spaces(s: string): (r: nat)
    ensures r <= |s|
  {
    if |s| == 0 then 0
    else Spaces(s[..|s| - 1]) + (if IsSpace(s[|s| - 1]) then 1 else 0)
  }

  /** Number of characters of s other than whitespace. */
  function NonSpaces(s: string): nat
  {
    |s| - Spaces(s)
  }

  /** `buf.indexOf(c, from)`: the first position at or after from that
      holds c, or -1 when there is none. */
  function IndexFrom(s: string, c: char, from: nat): (r: int)
    requires from <= |s|
    ensures r == -1 || from <= r < |s|
    ensures r != -1 ==> s[r] == c && forall k :: from <= k < r ==> s[k] != c
    ensures r == -1 ==> forall k :: from <= k < |s| ==> s[k] != c
    decreases |s| - from
  {
    if from == |s| then -1
    else if s[from] == c then from
    else IndexFrom(s, c, from + 1)
  }

  lemma OccurrencesStep(s: string, c: char, i: nat)
    requires i < |s|
    ensures Occurrences(s[..i + 1], c) == Occurrences(s[..i], c) + (if s[i] == c then 1 else 0)
  {
    assert s[..i + 1][..i] == s[..i];
  }

  /** A stretch without c adds no occurrence of c. */
  lemma {:induction false} OccurrencesSkip(s: string, c: char, i: nat, j: nat)
    requires i <= j <= |s|
    requires forall k :: i <= k < j ==> s[k] != c
    ensures Occurrences(s[..j], c) == Occurrences(s[..i], c)
    decreases j - i
  {
    if i < j {
      OccurrencesSkip(s, c, i, j - 1);
      OccurrencesStep(s, c, j - 1);
    }
  }

  lemma OccurrencesInStep(s: string, cs: seq<char>, i: nat)
    requires i < |cs|
    ensures OccurrencesIn(s, cs[..i + 1]) == OccurrencesIn(s, cs[..i]) + Occurrences(s, cs[i])
  {
    assert cs[..i + 1][..i] == cs[..i];
  }

  /** The whitespace count is the sum of the counts of the four
      whitespace characters. */
  lemma {:induction false} SpacesByChar(s: string)
    ensures Spaces(s) == Occurrences(s, ' ') + Occurrences(s, '\t')
                       + Occurrences(s, '\r') + Occurrences(s, '\n')
    decreases |s|
  {
    if |s| > 0 {
      SpacesByChar(s[..|s| - 1]);
    }
  }

  /** Counting the characters of SpaceChars one after the other counts the
      whitespace. */
  lemma SpaceCharsCount(s: string)
    ensures OccurrencesIn(s, SpaceChars) == Spaces(s)
  {
    SpacesByChar(s);
    assert SpaceChars[..0] == [] && SpaceChars[..4] == SpaceChars;
    OccurrencesInStep(s, SpaceChars, 0);
    OccurrencesInStep(s, SpaceChars, 1);
    OccurrencesInStep(s, SpaceChars, 2);
    OccurrencesInStep(s, SpaceChars, 3);
  }

  /** The nested counting loop of `decode`'s chunk handler: for each
      whitespace character, follow indexOf from occurrence to occurrence and
      count them. */
  method CountSpaces(buf: string) returns (spaces: nat)
    ensures spaces == Spaces(buf)
  {
    spaces := 0;
    var spacechars := SpaceChars;
    for i := 0 to |spacechars|
      invariant spaces == OccurrencesIn(buf, spacechars[..i])
    {
      var c := spacechars[i];
      ghost var before := spaces;
      var pos := IndexFrom(buf, c, 0);
      OccurrencesSkip(buf, c, 0, if pos == -1 then |buf| else pos);
      assert buf[..|buf|] == buf;
      while pos != -1
        invariant -1 <= pos < |buf|
        invariant pos == -1 ==> spaces == before + Occurrences(buf, c)
        invariant pos != -1 ==> buf[pos] == c && spaces == before + Occurrences(buf[..pos], c)
        decreases if pos == -1 then 0 else |buf| + 1 - pos
      {
        OccurrencesStep(buf, c, pos);
        spaces := spaces + 1;
        var next := IndexFrom(buf, c, pos + 1);
        OccurrencesSkip(buf, c, pos + 1, if next == -1 then |buf| else next);
        pos := next;
      }
      OccurrencesInStep(buf, spacechars, i);
    }
    assert spacechars[..|spacechars|] == SpaceChars;
    SpaceCharsCount(buf);
  }

  /** The value of `spaces` when the backtracking loop tests length L: the
      whitespace in buf[..L + 1], since the character at L itself is only
      discounted on the step that leaves L (or buf[..L] when L is the end,
      where `buf[L]` is undefined). */
  function SpacesAt(buf: string, L: nat): nat
    requires L <= |buf|
  {
    Spaces(buf[..if L < |buf| then L + 1 else L])
  }

  /** The loop test `length > 0 && (length - spaces) % 4 !== 0` fails at
      L. The difference is at least -1; JavaScript's remainder of -1 is -1
      and Dafny's is 3, so the two agree on whether it is zero. */
  predicate StopsAt(buf: string, L: nat)
    requires L <= |buf|
  {
    L == 0 || (L - SpacesAt(buf, L)) % 4 == 0
  }

  /** Where backtracking from L stops. */
  function CutFrom(buf: string, L: nat): (r: nat)
    requires L <= |buf|
    ensures r <= L
    decreases L
  {
    if StopsAt(buf, L) then L else CutFrom(buf, L - 1)
  }

  /** The cut point of a buffer: the value of `length` when backtracking
      from the end stops. */
  function Cut(buf: string): (r: nat)
    ensures r <= |buf|
  {
    CutFrom(buf, |buf|)
  }

  /** Backtracking from L stops at the first L' <= L where the test fails,
      and at no point above it. */
  lemma {:induction false} CutFromStops(buf: string, L: nat)
    requires L <= |buf|
    ensures StopsAt(buf, CutFrom(buf, L))
    ensures forall k :: CutFrom(buf, L) < k <= L ==> !StopsAt(buf, k)
    decreases L
  {
    if !StopsAt(buf, L) {
      CutFromStops(buf, L - 1);
    }
  }

  /** The cut point is the largest L <= |buf| where the loop test fails:
      L is 0 or (L - spaces) % 4 == 0 with spaces as line 113 keeps it. */
  lemma CutStops(buf: string)
    ensures Cut(buf) <= |buf|
    ensures Cut(buf) == 0 || (Cut(buf) - SpacesAt(buf, Cut(buf))) % 4 == 0
    ensures forall k :: Cut(buf) < k <= |buf| ==> k != 0 && (k - SpacesAt(buf, k)) % 4 != 0
  {
    CutFromStops(buf, |buf|);
    forall k | Cut(buf) < k <= |buf|
      ensures k != 0 && (k - SpacesAt(buf, k)) % 4 != 0
    {
      assert !StopsAt(buf, k);
    }
  }

  /** The backtracking loop of `decode`'s chunk handler. */
  method Backtrack(buf: string, total: nat) returns (length: nat, spaces: int)
    requires total == Spaces(buf)
    ensures length == Cut(buf) && spaces == SpacesAt(buf, length)
  {
    length := |buf|;
    spaces := total;
    assert buf[..|buf|] == buf;
    while length > 0 && (length - spaces) % 4 != 0
      invariant 0 <= length <= |buf|
      invariant spaces == SpacesAt(buf, length)
      invariant CutFrom(buf, length) == Cut(buf)
      decreases length
    {
      if length < |buf| && IsSpace(buf[length]) {
        spaces := spaces - 1;
      }
      if length < |buf| {
        assert buf[..length + 1][..length] == buf[..length];
      }
      length := length - 1;
    }
  }

  /** Whitespace counts add up over a concatenation. */
  lemma {:induction false} SpacesAppend(a: string, b: string)
    ensures Spaces(a + b) == Spaces(a) + Spaces(b)
    decreases |b|
  {
    if |b| == 0 {
      assert a + b == a;
    } else {
      SpacesAppend(a, b[..|b| - 1]);
      assert (a + b)[..|a + b| - 1] == a + b[..|b| - 1];
    }
  }

  lemma SpacesSplit(s: string, L: nat)
    requires L <= |s|
    ensures NonSpaces(s) == NonSpaces(s[..L]) + NonSpaces(s[L..])
  {
    assert s == s[..L] + s[L..];
    SpacesAppend(s[..L], s[L..]);
  }

  lemma SpacesPrefixStep(s: string, L: nat)
    requires L < |s|
    ensures NonSpaces(s[..L]) <= NonSpaces(s[..L + 1]) <= NonSpaces(s[..L]) + 1
  {
    assert s[..L + 1][..L] == s[..L];
  }

  /** Backtracking from L < |buf| when the non-whitespace after L + 1 is at
      most (T - 1) % 4, T being the whole buffer's: the test lets through
      no more than that many, so the cut leaves at most three. */
  lemma {:induction false} CutFromSuffix(buf: string, L: nat)
    requires L < |buf|
    requires NonSpaces(buf) % 4 != 0
    requires NonSpaces(buf) - NonSpaces(buf[..L + 1]) <= (NonSpaces(buf) - 1) % 4
    ensures NonSpaces(buf) - NonSpaces(buf[..CutFrom(buf, L)]) <= 3
    decreases L
  {
    var t := NonSpaces(buf);
    SpacesPrefixStep(buf, L);
    if !StopsAt(buf, L) {
      assert SpacesAt(buf, L) == Spaces(buf[..L + 1]);
      assert t - NonSpaces(buf[..L + 1]) != (t - 1) % 4;
      CutFromSuffix(buf, L - 1);
    }
  }

  /** What the decoder keeps after a chunk holds at most three characters
      other than whitespace. */
  lemma CutSuffix(buf: string)
    ensures NonSpaces(buf[Cut(buf)..]) <= 3
  {
    var t := NonSpaces(buf);
    assert buf[..|buf|] == buf;
    if t % 4 != 0 {
      assert !StopsAt(buf, |buf|);
      CutFromSuffix(buf, |buf| - 1);
    }
    SpacesSplit(buf, Cut(buf));
  }

  /** The closure `decode` keeps between chunks. */
  class Decoder {
    /** Text fed but not yet decoded. */
    var buf: string

    constructor ()
      ensures buf == ""
    {
      buf := "";
    }

    /** Appends a chunk, counts its whitespace, backtracks to the cut point,
        decodes the text before it and keeps the rest. */
    method Feed(value: string) returns (out: seq<byte>)
      modifies this
      ensures var all := old(buf) + value;
              out == DecodeChunk(all[..Cut(all)]) && buf == all[Cut(all)..]
      ensures NonSpaces(buf) <= 3
    {
      buf := buf + value;
      var spaces := CountSpaces(buf);
      var length, _ := Backtrack(buf, spaces);
      CutSuffix(buf);
      out := DecodeChunk(buf[..length]);
      buf := buf[length..];
    }

    /** Decodes what is left. */
    method Finish() returns (out: seq<byte>)
      ensures out == DecodeChunk(buf)
    {
      out := DecodeChunk(buf);
    }
  }

  /** `decode` applied to a whole string: one Feed and then Finish. */
  function DecodeWhole(s: string): seq<byte>
  {
    DecodeChunk(s[..Cut(s)]) + DecodeChunk(s[Cut(s)..])
  }

  method DecodeString(s: string) returns (bytes: seq<byte>)
    ensures bytes == DecodeWhole(s)
  {
    var decoder := new Decoder();
    var head := decoder.Feed(s);
    var tail := decoder.Finish();
    bytes := head + tail;
    assert "" + s == s;
  }

  /** Text whose non-whitespace comes in whole groups of four is decoded
      in one piece. */
  lemma DecodeWholeAligned(s: string, k: nat)
    requires NonSpaces(s) == 4 * k
    ensures Cut(s) == |s|
    ensures DecodeWhole(s) == DecodeChunk(s)
  {
    assert s[..|s|] == s;
    assert DecodeChunk(s[|s|..]) == [];
  }

  /** Text made of kept characters holds no whitespace. */
  lemma {:induction false} KeptHasNoSpaces(s: string)
    requires AllKept(s)
    ensures Spaces(s) == 0
    decreases |s|
  {
    if |s| > 0 {
      KeptHasNoSpaces(s[..|s| - 1]);
    }
  }

  /** `decode` reads back what `encodeChunk` writes. */
  lemma DecodeWholeEncode(data: seq<byte>)
    ensures DecodeWhole(EncodeChunk(data)) == data
  {
    var e := EncodeChunk(data);
    EncodeChunkKept(data);
    KeptHasNoSpaces(e);
    EncodeChunkLength(data);
    DecodeWholeAligned(e, (|data| + 2) / 3);
    DecodeEncode(data);
  }

  /** Line breaks do not change the non-whitespace count. */
  lemma {:induction false} WrapNonSpaces(e: string)
    ensures NonSpaces(Wrap(e)) == NonSpaces(e)
    decreases |e|
  {
    if |e| > 0 {
      var n := if |e| < 60 then |e| else 60;
      WrapNonSpaces(e[n..]);
      SpacesAppend(e[..n] + "\n", Wrap(e[n..]));
      SpacesAppend(e[..n], "\n");
      assert Spaces("\n") == 1 by {
        assert "\n"[..0] == "";
      }
      SpacesSplit(e, n);
    }
  }

  /** Line breaks are filtered out before decoding. */
  lemma {:induction false} FilterWrap(e: string)
    ensures Filter(Wrap(e)) == Filter(e)
    decreases |e|
  {
    if |e| > 0 {
      var n := if |e| < 60 then |e| else 60;
      FilterWrap(e[n..]);
      FilterAppend(e[..n] + "\n", Wrap(e[n..]));
      FilterAppend(e[..n], "\n");
      assert Filter("\n") == [] by {
        assert "\n"[1..] == "";
      }
      FilterAppend(e[..n], e[n..]);
      assert e == e[..n] + e[n..];
    }
  }

  /** `decode` given the whole text that `encode` writes, in one piece,
      reads back the input. */
  lemma DecodeWholeArmor(data: seq<byte>)
    ensures DecodeWhole(Armor(data)) == data
  {
    var e := EncodeChunk(data);
    WrapIsArmor(data);
    EncodeChunkKept(data);
    KeptHasNoSpaces(e);
    EncodeChunkLength(data);
    WrapNonSpaces(e);
    DecodeWholeAligned(Wrap(e), (|data| + 2) / 3);
    FilterWrap(e);
    DecodeEncode(data);
  }

  /** Whatever chunks the input is fed to `encode` in, `decode` of the
      whole text it writes gives the input back. */
  method EncodeThenDecode(chunks: seq<seq<byte>>) returns (decoded: seq<byte>)
    ensures decoded == Concat(chunks)
  {
    var text := EncodeStream(chunks);
    decoded := DecodeString(text);
    DecodeWholeArmor(Concat(chunks));
  }

  // ---------------------------------------------------------------------
  // Re-chunked round trip

  /** Text made only of characters `decode` keeps or counts as whitespace. */
  predicate Clean(s: string)
  {
    forall k :: 0 <= k < |s| ==> IsKept(s[k]) || IsSpace(s[k])
  }

  /** Whitespace only after whole groups: every whitespace character has a
      multiple of four non-whitespace characters before it. The text
      `encode` writes has this shape. */
  predicate SpacesAligned(s: string)
  {
    forall L {:trigger NonSpaces(s[..L])} :: 0 <= L < |s| && IsSpace(s[L]) ==> NonSpaces(s[..L]) % 4 == 0
  }

  /** Chunks of text fed to `decode`, joined. */
  function ConcatText(pieces: seq<string>): string
  {
    if |pieces| == 0 then "" else ConcatText(pieces[..|pieces| - 1]) + pieces[|pieces| - 1]
  }

  /** On text with aligned whitespace the test on line 113 does no harm:
      the loop stops after a whole number of groups. */
  lemma CutAligned(s: string)
    requires SpacesAligned(s)
    ensures NonSpaces(s[..Cut(s)]) % 4 == 0
  {
    var L := Cut(s);
    CutStops(s);
    if L == 0 {
      assert s[..0] == "";
    } else if L < |s| {
      assert s[..L + 1][..L] == s[..L];
    }
  }

  /** Whole groups added to whole groups are whole groups; whole groups
      taken from whole groups leave whole groups. */
  lemma GroupsAdd(x: nat, y: nat, z: nat)
    requires x % 4 == 0 && z == x + y
    ensures z % 4 == 0 <==> y % 4 == 0
  {
    assert z == 4 * (x / 4) + y;
  }

  lemma CleanPrefix(a: string, b: string)
    requires Clean(a + b)
    ensures Clean(a)
  {
    forall k | 0 <= k < |a|
      ensures IsKept(a[k]) || IsSpace(a[k])
    {
      assert (a + b)[k] == a[k];
    }
  }

  lemma AlignedPrefix(a: string, b: string)
    requires SpacesAligned(a + b)
    ensures SpacesAligned(a)
  {
    forall L | 0 <= L < |a| && IsSpace(a[L])
      ensures NonSpaces(a[..L]) % 4 == 0
    {
      assert (a + b)[..L] == a[..L] && (a + b)[L] == a[L];
    }
  }

  /** What follows whole groups keeps its whitespace aligned. */
  lemma AlignedSuffix(a: string, b: string)
    requires SpacesAligned(a + b) && NonSpaces(a) % 4 == 0
    ensures SpacesAligned(b)
  {
    forall L | 0 <= L < |b| && IsSpace(b[L])
      ensures NonSpaces(b[..L]) % 4 == 0
    {
      assert (a + b)[..|a| + L] == a + b[..L] && (a + b)[|a| + L] == b[L];
      assert NonSpaces((a + b)[..|a| + L]) % 4 == 0;
      SpacesAppend(a, b[..L]);
      GroupsAdd(NonSpaces(a), NonSpaces(b[..L]), NonSpaces(a + b[..L]));
    }
  }

  lemma AlignedAppend(a: string, b: string)
    requires SpacesAligned(a) && SpacesAligned(b) && NonSpaces(a) % 4 == 0
    ensures SpacesAligned(a + b)
  {
    forall L | 0 <= L < |a + b| && IsSpace((a + b)[L])
      ensures NonSpaces((a + b)[..L]) % 4 == 0
    {
      if L < |a| {
        assert (a + b)[..L] == a[..L] && (a + b)[L] == a[L];
        assert NonSpaces(a[..L]) % 4 == 0;
      } else {
        assert (a + b)[..L] == a + b[..L - |a|] && (a + b)[L] == b[L - |a|];
        assert NonSpaces(b[..L - |a|]) % 4 == 0;
        SpacesAppend(a, b[..L - |a|]);
        GroupsAdd(NonSpaces(a), NonSpaces(b[..L - |a|]), NonSpaces(a + b[..L - |a|]));
      }
    }
  }

  /** On clean text the filter keeps exactly the non-whitespace. */
  lemma {:induction false} FilterLen(s: string)
    requires Clean(s)
    ensures |Filter(s)| == NonSpaces(s)
    decreases |s|
  {
    if |s| > 0 {
      var p := s[..|s| - 1];
      var c := s[|s| - 1];
      assert s == p + [c];
      CleanPrefix(p, [c]);
      FilterLen(p);
      FilterAppend(p, [c]);
      FilterCons(c, "");
      assert [c] + "" == [c];
    }
  }

  /** One line `encode` writes: whole groups, then "\n". */
  lemma LineAligned(e: string, k: nat)
    requires AllKept(e) && |e| == 4 * k
    ensures Clean(e + "\n") && SpacesAligned(e + "\n") && NonSpaces(e + "\n") == 4 * k
  {
    var t := e + "\n";
    KeptHasNoSpaces(e);
    assert t[..|e|] == e;
    forall L | 0 <= L < |t| && IsSpace(t[L])
      ensures NonSpaces(t[..L]) % 4 == 0
    {
      assert L == |e|;
    }
  }

  lemma CleanAppend(a: string, b: string)
    requires Clean(a) && Clean(b)
    ensures Clean(a + b)
  {
    forall k | 0 <= k < |a + b|
      ensures IsKept((a + b)[k]) || IsSpace((a + b)[k])
    {
      if k < |a| {
        assert (a + b)[k] == a[k];
      } else {
        assert (a + b)[k] == b[k - |a|];
      }
    }
  }

  /** The first line of the text `encode` writes: whole groups of kept
      characters and a "\n", followed by the text of the rest. */
  lemma ArmorLine(data: seq<byte>) returns (line: string, n: nat, k: nat)
    requires |data| > 0
    ensures n <= |data| && n == (if |data| < 45 then |data| else 45)
    ensures Armor(data) == (line + "\n") + Armor(data[n..])
    ensures AllKept(line) && |line| == 4 * k
  {
    n := if |data| < 45 then |data| else 45;
    line := EncodeChunk(data[..n]);
    k := (n + 2) / 3;
    EncodeChunkKept(data[..n]);
    EncodeChunkLength(data[..n]);
  }

  /** The text `encode` writes is clean and has aligned whitespace. */
  lemma {:induction false} ArmorAligned(data: seq<byte>)
    ensures Clean(Armor(data)) && SpacesAligned(Armor(data))
    decreases |data|
  {
    if |data| > 0 {
      var line, n, k := ArmorLine(data);
      var rest := Armor(data[n..]);
      ArmorAligned(data[n..]);
      LineAligned(line, k);
      AlignedAppend(line + "\n", rest);
      CleanAppend(line + "\n", rest);
    }
  }

  /** The whole text `encode` writes decodes, in one piece, to its input. */
  lemma ArmorDecodes(data: seq<byte>)
    ensures DecodeChunk(Armor(data)) == data
  {
    WrapIsArmor(data);
    FilterWrap(EncodeChunk(data));
    DecodeEncode(data);
  }

  /** The first i + 1 chunks are the first i and chunk i: what was decoded,
      and the pending text with chunk i appended. */
  lemma ConcatTextStep(pieces: seq<string>, i: nat, consumed: string, before: string)
    requires i < |pieces|
    requires ConcatText(pieces[..i]) == consumed + before
    ensures ConcatText(pieces[..i + 1]) == consumed + (before + pieces[i])
  {
    assert pieces[..i + 1][..i] == pieces[..i];
  }

  /** The text after whole groups is cut after whole groups again. */
  lemma FeedAligned(consumed: string, all: string, front: string)
    requires SpacesAligned(consumed + all) && NonSpaces(consumed) % 4 == 0
    requires front == all[..Cut(all)]
    ensures NonSpaces(front) % 4 == 0
  {
    AlignedSuffix(consumed, all);
    CutAligned(all);
  }

  /** Clean text of whole groups decodes apart from what follows it. */
  lemma DecodeAfterGroups(a: string, b: string)
    requires Clean(a) && NonSpaces(a) % 4 == 0
    ensures NonSpaces(a + b) == NonSpaces(a) + NonSpaces(b)
    ensures NonSpaces(a + b) % 4 == 0 <==> NonSpaces(b) % 4 == 0
    ensures DecodeChunk(a) + DecodeChunk(b) == DecodeChunk(a + b)
  {
    SpacesAppend(a, b);
    FilterLen(a);
    GroupsAdd(NonSpaces(a), NonSpaces(b), NonSpaces(a + b));
    DecodeChunkAppend(a, b);
  }

  lemma SplitText(consumed: string, all: string, n: nat)
    requires n <= |all|
    ensures consumed + all == (consumed + all[..n]) + all[n..]
  {
    assert all == all[..n] + all[n..];
  }

  /** One Feed after whole groups of clean aligned text: what it decodes
      is whole groups again, and its bytes extend the bytes before. */
  lemma FeedGroups(consumed: string, all: string, front: string)
    requires SpacesAligned(consumed + all) && Clean(consumed + all)
    requires NonSpaces(consumed) % 4 == 0
    requires front == all[..Cut(all)]
    ensures NonSpaces(consumed + front) % 4 == 0
    ensures DecodeChunk(consumed) + DecodeChunk(front) == DecodeChunk(consumed + front)
  {
    FeedAligned(consumed, all, front);
    CleanPrefix(consumed, all);
    DecodeAfterGroups(consumed, front);
  }

  /** One Feed of a re-chunked stream: the decoded prefix grows by whole
      groups, and its bytes extend what was decoded before. */
  lemma DecodeStep(pieces: seq<string>, i: nat, consumed: string, before: string,
                   out: seq<byte>, after: string)
      returns (front: string)
    requires i < |pieces|
    requires SpacesAligned(ConcatText(pieces[..i + 1])) && Clean(ConcatText(pieces[..i + 1]))
    requires ConcatText(pieces[..i]) == consumed + before
    requires NonSpaces(consumed) % 4 == 0
    requires out == DecodeChunk((before + pieces[i])[..Cut(before + pieces[i])])
    requires after == (before + pieces[i])[Cut(before + pieces[i])..]
    ensures ConcatText(pieces[..i + 1]) == (consumed + front) + after
    ensures NonSpaces(consumed + front) % 4 == 0
    ensures DecodeChunk(consumed) + out == DecodeChunk(consumed + front)
  {
    var all := before + pieces[i];
    front := all[..Cut(all)];
    ConcatTextStep(pieces, i, consumed, before);
    FeedGroups(consumed, all, front);
    SplitText(consumed, all, Cut(all));
  }

  /** A prefix of the chunks of aligned clean text is aligned and clean. */
  lemma {:induction false} PiecesAligned(pieces: seq<string>, j: nat)
    requires j <= |pieces|
    requires SpacesAligned(ConcatText(pieces)) && Clean(ConcatText(pieces))
    ensures SpacesAligned(ConcatText(pieces[..j])) && Clean(ConcatText(pieces[..j]))
    decreases |pieces| - j
  {
    if j == |pieces| {
      assert pieces[..j] == pieces;
    } else {
      PiecesAligned(pieces, j + 1);
      assert pieces[..j + 1][..j] == pieces[..j];
      AlignedPrefix(ConcatText(pieces[..j]), pieces[j]);
      CleanPrefix(ConcatText(pieces[..j]), pieces[j]);
    }
  }

  /** The Finish of a re-chunked stream completes the decoded text. */
  lemma DecodeEnd(pieces: seq<string>, consumed: string, rest: string)
    requires ConcatText(pieces) == consumed + rest
    requires Clean(ConcatText(pieces)) && NonSpaces(consumed) % 4 == 0
    ensures DecodeChunk(consumed) + DecodeChunk(rest) == DecodeChunk(ConcatText(pieces))
  {
    CleanPrefix(consumed, rest);
    DecodeAfterGroups(consumed, rest);
  }

  /** `decode` over a stream: one Feed per chunk, in order, then Finish.
      On clean text with aligned whitespace, however it is cut into
      chunks, the bytes are those of the whole text decoded at once. */
  method DecodePieces(pieces: seq<string>) returns (bytes: seq<byte>)
    requires SpacesAligned(ConcatText(pieces)) && Clean(ConcatText(pieces))
    ensures bytes == DecodeChunk(ConcatText(pieces))
  {
    var decoder := new Decoder();
    bytes := [];
    ghost var consumed := "";
    assert DecodeChunk("") == [];
    for i := 0 to |pieces|
      invariant ConcatText(pieces[..i]) == consumed + decoder.buf
      invariant NonSpaces(consumed) % 4 == 0
      invariant bytes == DecodeChunk(consumed)
    {
      PiecesAligned(pieces, i + 1);
      ghost var before := decoder.buf;
      var out := decoder.Feed(pieces[i]);
      ghost var front := DecodeStep(pieces, i, consumed, before, out, decoder.buf);
      bytes := bytes + out;
      consumed := consumed + front;
    }
    var last := decoder.Finish();
    assert pieces[..|pieces|] == pieces;
    DecodeEnd(pieces, consumed, decoder.buf);
    bytes := bytes + last;
  }

  /** `decode(encode(data))` however the encoded text is cut into chunks
      on its way to the decoder. */
  method RechunkedRoundTrip(data: seq<byte>, pieces: seq<string>) returns (decoded: seq<byte>)
    requires ConcatText(pieces) == Armor(data)
    ensures decoded == data
  {
    ArmorAligned(data);
    decoded := DecodePieces(pieces);
    ArmorDecodes(data);
  }

  /** In "Y\n" the loop stops at length 1: the '\n' at index 1 is still
      counted when length 1 is tested. */
  lemma NewlineCut()
    ensures Cut("Y\n") == 1
  {
    var s := "Y\n";
    assert s[..2] == s && s[..1][..0] == "" && s[..2][..1] == "Y";
    assert !StopsAt(s, 2) && StopsAt(s, 1);
  }

  /** Whitespace after a partial group: "ABCDE\nF" is cut after "ABCDE",
      five non-whitespace characters, not after the group "ABCD". */
  lemma PartialGroupCut()
    ensures Cut("ABCDE\nF") == 5 && NonSpaces("ABCDE\nF"[..5]) == 5
  {
    var s := "ABCDE\nF";
    assert AllKept("ABCDE");
    KeptHasNoSpaces("ABCDE");
    assert s[..7] == s && s[..7][..6] == s[..6] && s[..6][..5] == "ABCDE" && s[..5] == "ABCDE";
    assert !StopsAt(s, 7) && !StopsAt(s, 6) && StopsAt(s, 5);
  }

  /** Text without whitespace has none to count. */
  lemma {:induction false} SpaceFree(s: string)
    requires forall k :: 0 <= k < |s| ==> !IsSpace(s[k])
    ensures Spaces(s) == 0
    decreases |s|
  {
    if |s| > 0 {
      SpaceFree(s[..|s| - 1]);
    }
  }

  /** Text of whole groups with no whitespace is cut at its end and
      decoded in one piece. */
  lemma SpaceFreeCut(s: string, k: nat)
    requires |s| == 4 * k
    requires forall i :: 0 <= i < |s| ==> !IsSpace(s[i])
    ensures Cut(s) == |s|
    ensures DecodeWhole(s) == DecodeChunk(s)
  {
    SpaceFree(s);
    DecodeWholeAligned(s, k);
  }

  /** Dropping one foreign character between two runs of kept characters
      leaves the two runs decoded as one. */
  lemma DropForeign(a: string, c: char, b: string)
    requires AllKept(a) && AllKept(b) && !IsKept(c)
    ensures DecodeChunk(a + [c] + b) == DecodeGroups(a + b)
  {
    DecodeChunkIgnores(a, c, b);
    KeptAppend(a, b);
    FilterClean(a + b);
  }

  /** Three kept characters and then four are a whole group, closed by
      the first of the four, and a short group of the other three. */
  lemma ShortRunThenGroup(a: string, b: string)
    requires |a| == 3 && |b| == 4
    ensures DecodeGroups(a + b) == DecodeGroup(a + b[..1]) + DecodeGroup(b[1..])
  {
    var t, rest := a + b, b[1..];
    assert t[..4] == a + b[..1] && t[4..] == rest;
    assert rest[..3] == rest && rest[3..] == "";
    assert DecodeGroups(rest) == DecodeGroup(rest) + [];
    assert DecodeGroups(t) == DecodeGroup(t[..4]) + DecodeGroups(rest);
  }

  /** A group of three alphabet characters misses its fourth, so its third
      byte joins a -1 sextet and reads 0xFF. */
  lemma ShortGroupLastByte(g: string)
    requires |g| == 3 && IsBase64Char(g[1]) && IsBase64Char(g[2])
    ensures |DecodeGroup(g)| == 3 && DecodeGroup(g)[2] == 0xFF
  {
    assert !IsPadAt(g, 1) && !IsPadAt(g, 2) && !IsPadAt(g, 3);
    DecodeGroupBytes(g);
  }

  /** Three alphabet characters closed by a fourth make a whole group of
      three bytes, the third being (sextet 2 mod 4) * 64 + sextet 3. */
  lemma WholeGroupLastByte(a: string, b: string)
    requires |a| == 3 && |b| >= 1
    requires IsBase64Char(a[1]) && IsBase64Char(a[2]) && IsBase64Char(b[0])
    ensures |DecodeGroup(a + b[..1])| == 3
    ensures DecodeGroup(a + b[..1])[2] == IndexOf(a[2]) % 4 * 64 + IndexOf(b[0])
  {
    var g := a + b[..1];
    assert g[1] == a[1] && g[2] == a[2] && g[3] == b[0];
    assert !IsPadAt(g, 1) && !IsPadAt(g, 2) && !IsPadAt(g, 3);
    DecodeGroupBytes(g);
  }

  /** Two outputs whose third bytes differ are different. */
  lemma ChunksDiffer(front: seq<byte>, back: seq<byte>, whole: seq<byte>)
    requires |front| >= 3 && |whole| >= 3 && front[2] != whole[2]
    ensures front + back != whole
  {
    assert (front + back)[2] == front[2];
  }

  /** Three alphabet characters and a foreign one, fed alone, are cut at
      their end and decode to a short group whose third byte is 0xFF. */
  lemma ForeignPieceBytes(a: string, c: char)
    requires |a| == 3 && forall i :: 0 <= i < 3 ==> IsBase64Char(a[i])
    requires !IsKept(c) && !IsSpace(c)
    ensures |DecodeWhole(a + [c])| == 3 && DecodeWhole(a + [c])[2] == 0xFF
  {
    var piece := a + [c];
    assert forall i :: 0 <= i < |piece| ==> !IsSpace(piece[i]);
    SpaceFreeCut(piece, 1);
    DecodeChunkIgnores(a, c, "");
    assert piece + "" == piece && a + "" == a;
    assert AllKept(a);
    FilterClean(a);
    assert a[..3] == a && a[3..] == "";
    assert DecodeChunk(piece) == DecodeGroup(a) + [];
    ShortGroupLastByte(a);
  }

  /** The same characters fed before four alphabet characters are cut
      after all eight, and the first three join the first of the four into
      a whole group. */
  lemma ForeignWholeBytes(a: string, c: char, b: string)
    requires |a| == 3 && forall i :: 0 <= i < 3 ==> IsBase64Char(a[i])
    requires |b| == 4 && forall i :: 0 <= i < 4 ==> IsBase64Char(b[i])
    requires !IsKept(c) && !IsSpace(c)
    ensures |DecodeWhole(a + [c] + b)| >= 3
    ensures DecodeWhole(a + [c] + b)[2] == IndexOf(a[2]) % 4 * 64 + IndexOf(b[0])
  {
    var whole := a + [c] + b;
    assert forall i :: 0 <= i < |whole| ==> !IsSpace(whole[i]);
    SpaceFreeCut(whole, 2);
    assert AllKept(a) && AllKept(b);
    DropForeign(a, c, b);
    ShortRunThenGroup(a, b);
    WholeGroupLastByte(a, b);
  }

  /** A character outside the class and outside whitespace breaks chunk
      independence without any whitespace: the cut counts it and the
      filter drops it. Three alphabet characters and such a character, fed
      before four more alphabet characters, decode to a short group whose
      third byte is 0xFF; fed together, the three join the first of the
      four. For instance "ABC*" then "DEFG" differs from "ABC*DEFG". */
  lemma ForeignCharChunking(a: string, c: char, b: string)
    requires |a| == 3 && forall i :: 0 <= i < 3 ==> IsBase64Char(a[i])
    requires |b| == 4 && forall i :: 0 <= i < 4 ==> IsBase64Char(b[i])
    requires !IsKept(c) && !IsSpace(c)
    requires !(IndexOf(a[2]) % 4 == 3 && IndexOf(b[0]) == 63)
    ensures DecodeWhole(a + [c]) + DecodeWhole(b) != DecodeWhole(a + [c] + b)
  {
    ForeignPieceBytes(a, c);
    ForeignWholeBytes(a, c, b);
    ChunksDiffer(DecodeWhole(a + [c]), DecodeWhole(b), DecodeWhole(a + [c] + b));
  }

  /** A lone "Y" is a group missing three characters: every byte it
      yields joins a -1 sextet and reads 0xFF. */
  lemma LoneCharacterDecode()
    ensures DecodeChunk("Y") == [0xFF, 0xFF, 0xFF]
  {
    assert Filter("Y") == "Y" by {
      assert "Y"[1..] == "";
    }
    assert "Y"[..1] == "Y" && "Y"[1..] == "";
    assert SextetAt("Y", 0) == 24 && SextetAt("Y", 1) == -1;
    DecodeGroupBytes("Y");
  }

  /** The off-by-one of the backtracking loop: "Y\n" is cut after "Y",
      whose one non-whitespace character is not a whole group, so "Y" is
      decoded alone into three 0xFF bytes; a cut after whole groups would be
      at 0. */
  lemma NewlineCutExample()
    ensures Cut("Y\n") == 1 && NonSpaces("Y\n"[..1]) == 1
    ensures DecodeWhole("Y\n") == [0xFF, 0xFF, 0xFF]
  {
    NewlineCut();
    LoneCharacterDecode();
    assert "Y\n"[..1] == "Y" && "Y\n"[1..] == "\n";
    assert NonSpaces("Y") == 1 by {
      assert "Y"[..0] == "";
    }
    assert Filter("\n") == "" by {
      assert "\n"[1..] == "";
    }
  }

  /** The cut points of "YQ" and "YQ==": two characters are held back,
      four make a whole group. */
  lemma PiecesCuts()
    ensures Cut("YQ") == 0 && Cut("YQ==") == 4
  {
    var s := "YQ";
    assert s[..2] == s && s[..2][..1] == "Y" && s[..1][..0] == "";
    assert !StopsAt(s, 2) && !StopsAt(s, 1);
    var t := "YQ==";
    assert AllKept(t);
    KeptHasNoSpaces(t);
    assert t[..4] == t;
  }

  /** Text fed in pieces is held back until it makes whole groups: "YQ"
      yields nothing and stays pending, "==" then completes the group. */
  method PiecesExample() returns (first: seq<byte>, second: seq<byte>, last: seq<byte>)
    ensures first == [] && second == [0x61] && last == []
  {
    PiecesCuts();
    DecodeExample();
    assert "" + "YQ" == "YQ" && "YQ"[..0] == "" && "YQ"[0..] == "YQ";
    assert "YQ" + "==" == "YQ==" && "YQ=="[..4] == "YQ==" && "YQ=="[4..] == "";
    var decoder := new Decoder();
    first := decoder.Feed("YQ");
    second := decoder.Feed("==");
    last := decoder.Finish();
  }
}
