# Radix-64 codec of OpenPGP.gs, modelled in Dafny

This project models `src/encoding/base64.js` of OpenPGP.gs. That file holds the
radix-64 (base64) codec of OpenPGP: section 6.3 of RFC 4880, with the alphabet
and `=` padding of section 4 of RFC 4648 and the URL-safe alphabet of section 5.

The model has five modules, one per part of the file.

- `JsBits` (`js_bits.dfy`) gives JavaScript's 32-bit bitwise operators on
  unbounded integers: `>>`, `<<`, `&` with a low mask, and a two's-complement
  `|`. It also gives the `String.fromCharCode` → Uint8Array conversion.
- `Radix64` (`radix64.dfy`) models the table-lookup codec `encodeChunk` /
  `decodeChunk`. These are pure recursive functions over groups of three bytes
  and four characters.
- `StreamEncoder` (`stream_encoder.dfy`) models the streaming `encode`. Its
  closure becomes the class `Encoder`: a `buf` field, and `Feed` / `Finish`
  methods with the line-emission loop.
- `StreamDecoder` (`stream_decoder.dfy`) models the streaming `decode`. Its
  closure becomes the class `Decoder`: a `buf` field, and `Feed` / `Finish`
  methods. `Feed` runs two loops:
  - the nested whitespace-counting loop;
  - the backtracking loop, exactly as written, including the test of
    `buf[length]` on line 113.
- `UrlSafe` (`url_safe.dfy`) models `uint8ArrayToB64` / `b64ToUint8Array`.
  These are string replacements around a whole-value `encode` / `decode`,
  meaning one feed followed by finish.

Each stateful method is proved against a specification function:
- `Wrap` and `Armor` specify the encoder's text;
- `Cut` specifies the backtracking loop's stopping point;
- `DecodeWhole` specifies a one-chunk decode.

The properties are then proved about those functions.

Three behaviours of the code differ from what one might expect of a
radix-64 codec. The model follows the code. Items 1 and 2 are about the
table-lookup codec of lines 35-57, the one this project models; the
platform branches of lines 26-31 and 59-60 read unpadded or malformed
input differently (see "Left out").

1. **Decoder alignment.** One might expect each decoder feed to decode
   exactly the largest prefix holding a multiple of 4 characters of the
   class `[A-Za-z0-9+/=]`, so that any chunking of any text decodes like the
   whole text. The feed instead counts every non-whitespace character, and
   two things break chunk independence:
   - The loop on lines 111-114 tests `buf[length]` before decrementing.
     So a whitespace character exactly at the cut still counts. Feeding
     `"Y\n"` therefore decodes `"Y"` alone, through the table-lookup
     `decodeChunk`, into three 0xFF bytes. The model proves what the code
     does: `StreamDecoder.CutStops`, `StreamDecoder.CutSuffix` and
     `StreamDecoder.NewlineCutExample`.
   - A character that is neither whitespace nor in the class (a `*`, say)
     is counted by the loop on lines 111-114 but dropped by the filter on
     line 49 of `decodeChunk`. So `"ABC*"` then `"DEFG"` decodes differently from
     `"ABC*DEFG"`, even with no whitespace at all
     (`StreamDecoder.ForeignCharChunking`).
   - Neither matters for the text `encode` writes. There every character is
     in the class or a line break, and every line break follows whole
     groups. On such text the loop stops after whole groups
     (`StreamDecoder.CutAligned`). So `decode(encode(b))` returns b however
     the encoded text is cut into chunks (`StreamDecoder.RechunkedRoundTrip`).
2. **URL-safe round trip.** One might expect `b64ToUint8Array` to undo
   `uint8ArrayToB64` in URL mode for every input. The code drops the
   padding, and the table-lookup `decodeChunk` does not restore it. The
   round trip therefore holds only when the length is a multiple of three;
   `"YQ"` reads back as `[0x61, 0xFF, 0xFF]`.
3. **Empty input.** Encoding it gives `""`: `finish` writes nothing for an
   empty buffer. It does not give a padded line.

## Model

| member | source | states |
|---|---|---|
| JsBits.OrZero | src/encoding/base64.js:41-42 | the bitwise or of any integer with 0 is that integer |
| JsBits.OrAllOnes | src/encoding/base64.js:52-54 | the bitwise or of any integer with -1 is -1 |
| JsBits.OrDisjoint | src/encoding/base64.js:41-42 | the bitwise or of m shifted left by k with a b below 2^k is `m * 2^k + b` |
| JsBits.ShlOr | src/encoding/base64.js:52-54 | the bitwise or of hi shifted left by k with an lo below 2^k is `hi * 2^k + lo`, and with an lo of -1 is -1 |
| JsBits.ToUint8 | src/encoding/base64.js:52-56 | the byte kept from a `fromCharCode` code unit is in 0..255 and is the value itself when that is a byte |
| Radix64.CharAt | src/encoding/base64.js:36 | every table entry is a character of the alphabet `A-Za-z0-9+/` |
| Radix64.IndexOf | src/encoding/base64.js:48 | `indexOf` is -1 exactly for characters outside the alphabet ('=' included), and otherwise finds the entry holding the character |
| Radix64.CharAtUpper | src/encoding/base64.js:36 | entries 0..25 are the characters of the first run "A".."Z" of the `base64chars` literal, in order |
| Radix64.CharAtLower | src/encoding/base64.js:36 | entries 26..51 are the characters of the run "a".."z" of the literal, in order |
| Radix64.CharAtDigits | src/encoding/base64.js:36 | entries 52..63 are the characters of the run "0".."9", "+", "/" of the literal, in order |
| Radix64.CharAtTable | src/encoding/base64.js:36 | the table is the 64-character `base64chars` literal, entry for entry |
| Radix64.IndexOfCharAt | src/encoding/base64.js:36 | the table has no repeated entry: looking up entry v gives v back |
| Radix64.SecondSextetByBitOps | src/encoding/base64.js:41 | `((c0 & 3) << 4)` or-ed with `c1 >> 4` is the second 6-bit value of RFC 4648 |
| Radix64.ThirdSextetByBitOps | src/encoding/base64.js:42 | `((c1 & 15) << 2)` or-ed with `c2 >> 6` is the third 6-bit value |
| Radix64.SextetsByBitOps | src/encoding/base64.js:40-43 | the four shift/mask/or expressions of the encoder cut three bytes into the four 6-bit values of RFC 4648 |
| Radix64.EncodeGroup | src/encoding/base64.js:39-43 | one group of one to three bytes gives exactly four characters |
| Radix64.EncodeGroupChars | src/encoding/base64.js:40-43 | the four characters of a group are the four `output +=` steps in order |
| Radix64.EncodeGroupShape | src/encoding/base64.js:40-43 | a group of n bytes has '=' at exactly its last 3 - n positions, and only alphabet characters and '=' |
| Radix64.MissingBytesReadZero | src/encoding/base64.js:41-43 | a byte missing from the last group (NaN from `charCodeAt`) is encoded as if it were 0 |
| Radix64.EncodeChunkLength | src/encoding/base64.js:35-46 | `encodeChunk` writes exactly 4·⌈n/3⌉ characters |
| Radix64.EncodeChunkKept | src/encoding/base64.js:35-46 | every character written is from the alphabet or '=' |
| Radix64.EncodeChunkPadding | src/encoding/base64.js:35-46 | '=' occurs exactly at the last (3 - n mod 3) mod 3 positions |
| Radix64.EncodeChunkAppend | src/encoding/base64.js:38-44 | when the first part's length is a multiple of 3, encoding a concatenation is concatenating the encodings |
| Radix64.Filter | src/encoding/base64.js:49 | the filtered text is no longer than the input and holds only alphabet characters and '=' |
| Radix64.JoinFirstByBitOps | src/encoding/base64.js:52 | `i0 << 2` or-ed with `i1 >> 4` is `i0 * 4 + i1 / 16`, or -1 when i1 is -1 |
| Radix64.JoinSecondByBitOps | src/encoding/base64.js:53 | `(i1 & 15) << 4` or-ed with `i2 >> 2` is `(i1 mod 16) * 16 + i2 / 4`, or -1 when i2 is -1 |
| Radix64.JoinThirdByBitOps | src/encoding/base64.js:54 | `(i2 & 3) << 6` or-ed with `i3` is `(i2 mod 4) * 64 + i3`, or -1 when i3 is -1 |
| Radix64.JoinByBitOps | src/encoding/base64.js:52-54 | the decoder's three shift/mask/or expressions join four sextets into three values, for every sextet `indexOf` can return, -1 included |
| Radix64.DecodeGroupBytes | src/encoding/base64.js:51-54 | a group yields byte k exactly when its character k + 1 is not '=' |
| Radix64.JoinSextets | src/encoding/base64.js:40-43 | joining the sextets the encoder cuts from three bytes gives each byte back |
| Radix64.GroupByteJoined | src/encoding/base64.js:52-54 | byte k of a group is the value its sextets k and k + 1 join to, when both are in range |
| Radix64.EncodeGroupSextets | src/encoding/base64.js:40-43 | an encoded group reads back as its sextets, followed by '=' |
| Radix64.GroupByteOfEncoded | src/encoding/base64.js:52-54 | each byte of a group is decoded back from the group's encoding |
| Radix64.DecodeEncodeGroup | src/encoding/base64.js:38-55 | decoding undoes the encoding of one group |
| Radix64.DecodeGroupsCons | src/encoding/base64.js:50-51 | the decoding loop's first pass takes a whole leading group |
| Radix64.DecodeGroupsEncode | src/encoding/base64.js:38-55 | decoding the groups the encoder writes gives back the input |
| Radix64.DecodeEncode | src/encoding/base64.js:35-57 | `decodeChunk(encodeChunk(b)) == b` for every byte sequence b |
| Radix64.FilterAppend | src/encoding/base64.js:49 | filtering distributes over concatenation |
| Radix64.FilterCons | src/encoding/base64.js:49 | the filter keeps a first character exactly when it is in the class `[A-Za-z0-9+/=]` |
| Radix64.FilterClean | src/encoding/base64.js:49 | text made only of kept characters passes the filter unchanged |
| Radix64.DecodeChunkFiltered | src/encoding/base64.js:47-57 | decoding already filtered text is decoding the text |
| Radix64.DecodeChunkIgnores | src/encoding/base64.js:49 | inserting any character outside the class anywhere leaves the decoded bytes unchanged |
| Radix64.DecodeGroupsAppend | src/encoding/base64.js:50-55 | the decoding loop splits at any multiple of four characters |
| Radix64.DecodeChunkAppend | src/encoding/base64.js:47-57 | text whose kept characters form whole groups of four decodes in two pieces |
| Radix64.DecodeChunkInterleaved | src/encoding/base64.js:49-55 | writing a skipped character after every character does not change the decoded bytes |
| Radix64.EncodeExample | src/encoding/base64.js:35-46 | `encodeChunk([0x61]) == "YQ=="` |
| Radix64.DecodeExample | src/encoding/base64.js:47-57 | `decodeChunk("YQ==") == [0x61]` |
| Radix64.TrailingNewlineExample | src/encoding/base64.js:49 | `decodeChunk("YQ==\n") == [0x61]` |
| Radix64.InterleavedExample | src/encoding/base64.js:49 | `decodeChunk("Y\nQ\n=\n=\n") == [0x61]` |
| Radix64.LeadingPadExample | src/encoding/base64.js:52-56 | `decodeChunk("=QAA") == [0xFD, 0x00, 0x00]`: a '=' first reads -1, and `-1 << 2` or-ed with 1 is -3, stored as 0xFD |
| StreamEncoder.LineLength | src/encoding/base64.js:75 | 45 bytes encode to exactly one 60-character line, fewer bytes to at most one |
| StreamEncoder.EncodedLines | src/encoding/base64.js:75-78 | m whole lines of 45 bytes encode to exactly 60·m characters |
| StreamEncoder.WrapStep | src/encoding/base64.js:79-82 | wrapping the text from offset 60 i, when 60 more characters remain, gives `encoded.substr(60 i, 60)`, a "\n", then the wrapping of the text from offset 60 (i + 1) |
| StreamEncoder.WrapIsArmor | src/encoding/base64.js:75-85 | wrapping the one-piece encoding at 60 characters gives the line-by-line armored text, for every input |
| StreamEncoder.ArmorAppend | src/encoding/base64.js:75-83 | the armored text of whole 45-byte lines followed by more input is the two armored texts joined |
| StreamEncoder.WholeLines | src/encoding/base64.js:76-78 | cutting after ⌊n/45⌋ whole lines leaves fewer than 45 bytes (none cut when n < 45); the cut part encodes to 60 characters per line; its wrapped text followed by the rest's armored text is the whole armored text |
| StreamEncoder.WrapLength | src/encoding/base64.js:79-82 | m lines of 60 characters wrap to exactly 61·m characters |
| StreamEncoder.WrapSegment | src/encoding/base64.js:79-82 | segment i of the wrapped text is exactly `encoded.substr(60 i, 60)` followed by "\n" |
| StreamEncoder.WrapLines | src/encoding/base64.js:79-82 | the line-emission loop produces the encoding cut into 60-character segments, each followed by "\n" |
| StreamEncoder.Encoder.constructor | src/encoding/base64.js:71 | the pending buffer starts empty, which satisfies the invariant of fewer than 45 pending bytes |
| StreamEncoder.Encoder.Feed | src/encoding/base64.js:72-84 | the new buffer is `(old ++ chunk)[45k..]`, shorter than 45; the output is the wrapped encoding of the first 45k bytes; for k = 0 the output is "" and nothing is dropped; output then armored buffer equals the armored `old ++ chunk`; the invariant of fewer than 45 pending bytes is restored |
| StreamEncoder.Encoder.Finish | src/encoding/base64.js:85 | under the class invariant: "" for an empty buffer, otherwise `encodeChunk(buf) + "\n"`; either way the buffer's armored text |
| StreamEncoder.ConcatFeed | src/encoding/base64.js:73-83 | after a feed, the bytes encoded so far followed by the new buffer are the chunks read so far |
| StreamEncoder.ArmorFeed | src/encoding/base64.js:79-82 | a feed's output extends the armored text of what was encoded before |
| StreamEncoder.StreamStep | src/encoding/base64.js:73-84 | one feed of a stream extends both the bytes consumed, by whole 45-byte lines, and the armored text written |
| StreamEncoder.StreamEnd | src/encoding/base64.js:85 | the finish output completes the armored text of the whole stream |
| StreamEncoder.EncodeStream | src/encoding/base64.js:70-86 | for any cutting of the input into chunks, the feed outputs followed by finish are the armored text of the whole input |
| StreamDecoder.IndexFrom | src/encoding/base64.js:104 | `buf.indexOf(c, from)` is the first position at or after `from` that holds c, or -1 when there is none |
| StreamDecoder.OccurrencesSkip | src/encoding/base64.js:104 | a stretch without c adds nothing to the count of c |
| StreamDecoder.SpacesByChar | src/encoding/base64.js:101-107 | the whitespace count is the sum of the counts of ' ', '\t', '\r' and '\n' |
| StreamDecoder.SpaceCharsCount | src/encoding/base64.js:101-103 | counting the four characters of `spacechars` one after the other counts the whitespace |
| StreamDecoder.CountSpaces | src/encoding/base64.js:99-107 | the nested loop leaves `spaces` equal to the number of whitespace characters in the buffer |
| StreamDecoder.Cut | src/encoding/base64.js:111-114 | the cut point lies within the buffer |
| StreamDecoder.CutFromStops | src/encoding/base64.js:112-114 | backtracking stops at the first position where the loop test fails and passes every position above it |
| StreamDecoder.CutStops | src/encoding/base64.js:111-114 | the cut L is 0 or has (L - spaces) % 4 == 0, with `spaces` counting index L as line 113 does; at every larger position the test holds |
| StreamDecoder.Backtrack | src/encoding/base64.js:109-114 | the backtracking loop stops at the cut point, with `spaces` holding the value line 113 keeps |
| StreamDecoder.SpacesAppend | src/encoding/base64.js:99-107 | whitespace counts add up over a concatenation |
| StreamDecoder.CutFromSuffix | src/encoding/base64.js:111-114 | backtracking never lets more than three non-whitespace characters past the cut |
| StreamDecoder.CutSuffix | src/encoding/base64.js:109-117 | the suffix kept after a feed holds at most 3 non-whitespace characters |
| StreamDecoder.Decoder.constructor | src/encoding/base64.js:95 | the pending text starts empty |
| StreamDecoder.Decoder.Feed | src/encoding/base64.js:96-118 | the output is `decodeChunk` of `(old ++ chunk)` before the cut point; the new buffer is the text after it, with at most 3 non-whitespace characters |
| StreamDecoder.Decoder.Finish | src/encoding/base64.js:119 | the output is `decodeChunk` of the pending text |
| StreamDecoder.DecodeString | src/encoding/base64.js:94-120 | `decode` of a whole string, one feed then finish, is `DecodeWhole` |
| StreamDecoder.DecodeWholeAligned | src/encoding/base64.js:111-119 | text with a multiple of 4 non-whitespace characters is cut at its end and decoded in one piece |
| StreamDecoder.KeptHasNoSpaces | src/encoding/base64.js:49 | text made only of kept characters has no whitespace |
| StreamDecoder.DecodeWholeEncode | src/encoding/base64.js:35-120 | `decode` of `encodeChunk(b)` gives b back |
| StreamDecoder.WrapNonSpaces | src/encoding/base64.js:79-82 | the line breaks `encode` inserts do not change the non-whitespace count |
| StreamDecoder.FilterWrap | src/encoding/base64.js:49 | the line breaks `encode` inserts are filtered out before decoding |
| StreamDecoder.DecodeWholeArmor | src/encoding/base64.js:70-120 | `decode` of the whole text `encode` writes gives the input back |
| StreamDecoder.EncodeThenDecode | src/encoding/base64.js:70-120 | for any cutting of the input into chunks for `encode`, `decode` of the whole text it writes gives the input back |
| StreamDecoder.CutAligned | src/encoding/base64.js:109-114 | when every whitespace character follows a multiple of 4 non-whitespace characters, the loop stops after a multiple of 4 non-whitespace characters |
| StreamDecoder.CleanPrefix | src/encoding/base64.js:49 | a prefix of text made of kept characters and whitespace is made of them too |
| StreamDecoder.AlignedPrefix | src/encoding/base64.js:109-114 | a prefix of text whose whitespace follows whole groups has the same shape |
| StreamDecoder.AlignedSuffix | src/encoding/base64.js:109-117 | what follows whole groups of such text keeps its whitespace after whole groups |
| StreamDecoder.AlignedAppend | src/encoding/base64.js:79-82 | joining such texts after whole groups keeps the shape |
| StreamDecoder.FilterLen | src/encoding/base64.js:49 | on text made of kept characters and whitespace, the filter keeps exactly the non-whitespace |
| StreamDecoder.LineAligned | src/encoding/base64.js:79-82 | a line of 4k kept characters followed by "\n" has its whitespace after whole groups and 4k non-whitespace characters |
| StreamDecoder.CleanAppend | src/encoding/base64.js:79-82 | joining two texts made of kept characters and whitespace gives such a text |
| StreamDecoder.ArmorLine | src/encoding/base64.js:79-85 | the text `encode` writes starts with a line of 4k kept characters and "\n", followed by the text of the rest |
| StreamDecoder.ArmorAligned | src/encoding/base64.js:70-86 | the text `encode` writes has only kept characters and line breaks, each break after whole groups |
| StreamDecoder.ArmorDecodes | src/encoding/base64.js:47-57 | `decodeChunk` of the whole text `encode` writes gives the input back |
| StreamDecoder.ConcatTextStep | src/encoding/base64.js:97 | the first i + 1 chunks are what was decoded, then the pending text with chunk i appended |
| StreamDecoder.FeedAligned | src/encoding/base64.js:109-116 | after whole groups of such text, the part a feed decodes holds whole groups |
| StreamDecoder.DecodeAfterGroups | src/encoding/base64.js:47-57 | clean text of whole groups followed by more text decodes as the two decodings joined, and the non-whitespace counts add up |
| StreamDecoder.FeedGroups | src/encoding/base64.js:96-118 | after whole groups of such text, a feed decodes whole groups again, and its bytes extend the bytes decoded before |
| StreamDecoder.DecodeStep | src/encoding/base64.js:96-118 | one feed of a re-chunked stream extends the decoded prefix by whole groups, and the bytes by its decoding |
| StreamDecoder.PiecesAligned | src/encoding/base64.js:97 | every prefix of the chunks of such text has the same shape |
| StreamDecoder.DecodeEnd | src/encoding/base64.js:119 | finish completes the decoding of the whole text |
| StreamDecoder.DecodePieces | src/encoding/base64.js:94-120 | for text whose whitespace follows whole groups and whose other characters are all in the class `[A-Za-z0-9+/=]`, any cutting into chunks decodes to `decodeChunk` of the whole text |
| StreamDecoder.RechunkedRoundTrip | src/encoding/base64.js:70-120 | `decode(encode(b)) == b` however the encoded text is cut into chunks for `decode` |
| StreamDecoder.PartialGroupCut | src/encoding/base64.js:111-114 | "ABCDE\nF" is cut at 5, after five non-whitespace characters |
| StreamDecoder.NewlineCut | src/encoding/base64.js:111-114 | on "Y\n" the loop stops at length 1, because the '\n' at index 1 is still counted |
| StreamDecoder.SpaceFree | src/encoding/base64.js:100-107 | text with no whitespace character counts no whitespace |
| StreamDecoder.SpaceFreeCut | src/encoding/base64.js:111-116 | whitespace-free text of whole groups of four is cut at its end and decoded in one piece |
| StreamDecoder.DropForeign | src/encoding/base64.js:49 | a character outside the class between two runs of class characters is dropped, and the runs are decoded as one |
| StreamDecoder.ShortRunThenGroup | src/encoding/base64.js:50-51 | seven filtered characters decode as the group of the first four, then the short group of the last three |
| StreamDecoder.ShortGroupLastByte | src/encoding/base64.js:50-56 | a group of three alphabet characters yields three bytes, the third 0xFF |
| StreamDecoder.WholeGroupLastByte | src/encoding/base64.js:50-56 | a group of four alphabet characters yields three bytes, the third (sextet 2 mod 4) * 64 + sextet 3 |
| StreamDecoder.ForeignPieceBytes | src/encoding/base64.js:109-116 | three alphabet characters and a foreign one, decoded alone, give three bytes ending in 0xFF |
| StreamDecoder.ForeignWholeBytes | src/encoding/base64.js:109-116 | the same characters followed by four alphabet characters, decoded in one piece, give a third byte joined from the third and the fourth alphabet characters |
| StreamDecoder.ForeignCharChunking | src/encoding/base64.js:109-116 | without any whitespace, a foreign character breaks chunk independence: three alphabet characters and a foreign one fed before four alphabet characters decode differently from all eight fed at once (e.g. "ABC*" then "DEFG") |
| StreamDecoder.LoneCharacterDecode | src/encoding/base64.js:50-56 | a lone "Y" decodes to three 0xFF bytes |
| StreamDecoder.NewlineCutExample | src/encoding/base64.js:112-116 | on "Y\n" the loop stops at length 1, with 1 non-whitespace character before the cut (not a multiple of 4); decoding "Y\n" as a whole (one feed, then finish) gives [0xFF, 0xFF, 0xFF] |
| StreamDecoder.PiecesCuts | src/encoding/base64.js:111-114 | "YQ" is cut at 0 and held back; "YQ==" is cut at its end |
| StreamDecoder.PiecesExample | src/encoding/base64.js:96-119 | feeding "YQ" then "==" yields [], then [0x61], then nothing at finish |
| UrlSafe.ReplaceChar | src/encoding/base64.js:130 | `replace(/x/g, y)` keeps the length and changes exactly the occurrences of x into y |
| UrlSafe.Remove | src/encoding/base64.js:140-142 | `replace(/[..]/g, '')` leaves no removed character, takes every remaining character from the input, and does not lengthen it |
| UrlSafe.RemoveNone | src/encoding/base64.js:140-142 | removing characters that do not occur changes nothing |
| UrlSafe.RemoveAppend | src/encoding/base64.js:140-142 | removal distributes over concatenation |
| UrlSafe.Uint8ArrayToB64 | src/encoding/base64.js:139-145 | the result has no '\r' or '\n'; in URL mode it has no '+', '/' or '=' |
| UrlSafe.EncodeWhole | src/encoding/base64.js:140 | `encode` of a whole array (one feed and finish) is its armored text |
| UrlSafe.RemoveWrap | src/encoding/base64.js:140 | stripping line breaks from the wrapped encoding gives the encoding |
| UrlSafe.KeptHasNone | src/encoding/base64.js:140-142 | text made only of kept characters has none of the characters outside that class |
| UrlSafe.StandardIsEncodeChunk | src/encoding/base64.js:139-145 | in standard mode the result equals `encodeChunk(bytes)` |
| UrlSafe.StandardRoundTrip | src/encoding/base64.js:129-145 | `b64ToUint8Array(uint8ArrayToB64(b, false)) == b` for every b |
| UrlSafe.WholeGroupsUnpadded | src/encoding/base64.js:38-44 | an array whose length is a multiple of 3 encodes without '=' |
| UrlSafe.PadCountWhole | src/encoding/base64.js:38-44 | a length that is a multiple of 3 needs no padding |
| UrlSafe.UrlSafeUndone | src/encoding/base64.js:130-142 | on unpadded text, `b64ToUint8Array`'s replacements undo the URL-safe ones |
| UrlSafe.UrlRoundTrip | src/encoding/base64.js:129-145 | `b64ToUint8Array(uint8ArrayToB64(b, true)) == b` when \|b\| is a multiple of 3 |
| UrlSafe.ReplaceExample | src/encoding/base64.js:142 | "YQ==" has no '+' or '/' to replace |
| UrlSafe.RemovePaddingExample | src/encoding/base64.js:142 | dropping '=' from "YQ==" gives "YQ" |
| UrlSafe.UrlEncodeExample | src/encoding/base64.js:139-145 | 'a' is written "YQ" in URL mode |
| UrlSafe.DecodeShortExample | src/encoding/base64.js:94-131 | decoding "YQ" as a whole (one feed, then finish) gives [0x61, 0xFF, 0xFF] |
| UrlSafe.UrlPaddingLost | src/encoding/base64.js:129-145 | the URL-mode text of [0x61] reads back as [0x61, 0xFF, 0xFF] |

## Left out

- The Node `Buffer` branch (lines 26-31) and the `btoa`/`atob` branch (lines
  59-60) are calls into platform code. The table-lookup codec of lines 35-57
  stands in for both. On well-formed padded input the three agree. On
  unpadded or malformed input they do not: `Buffer.from(str, 'base64')`
  reads `"YQ"` as `[0x61]` and a lone `"Y"` as no bytes, and `atob` accepts
  missing padding but throws on a lone trailing character. So
  `StreamDecoder.LoneCharacterDecode`, `StreamDecoder.NewlineCutExample`,
  `UrlSafe.DecodeShortExample` and `UrlSafe.UrlPaddingLost` describe
  the table-lookup branch only. The cut of the streaming decoder itself
  (`StreamDecoder.CutStops`, `StreamDecoder.CutSuffix`,
  `StreamDecoder.PartialGroupCut`, `StreamDecoder.ForeignCharChunking`'s
  cuts) does not depend on the branch.
- `stream.transform` from `@openpgp/web-stream-tools` (lines 72 and 96) is
  ReadableStream plumbing. It is replaced by explicit `Feed` and `Finish`
  calls. A non-stream argument is modelled as one feed followed by finish.
  Asynchrony, back-pressure and cancellation are not modelled.
- `util.uint8ArrayToString`, `util.stringToUint8Array` and
  `util.concatUint8Array` are not part of this model.
  - The first two are taken as the identity on values below 256.
  - The third is taken as sequence concatenation.
  - `String.fromCharCode` followed by `stringToUint8Array` is modelled as
    `ToUint8`, the low 8 bits of the low 16 bits.
- JsBits.Shl: does not model 32-bit wrap-around. Every shifted operand in the
  codec is between -1 and 255, so no result leaves the 32-bit range.
- Radix64.DecodeChunk: has no precondition. It is total and models
  malformed radix-64 input as the code handles it:
  - a missing character reads as -1;
  - a negative joined value, between -4 and -1, is stored as its low 8 bits
    (0xFC..0xFF); "=QAA" gives 0xFD as its first byte
    (`Radix64.LeadingPadExample`).

  This is needed because the streaming decoder does hand it groups of fewer
  than four characters (see `StreamDecoder.NewlineCutExample`).
- The decoder's output is proved independent of how its input is cut into
  chunks only for text that meets two conditions (`StreamDecoder.DecodePieces`):
  its whitespace follows whole groups (`SpacesAligned`), and every other
  character is in the class `[A-Za-z0-9+/=]` (`Clean`). This covers all text
  `encode` writes (`StreamDecoder.RechunkedRoundTrip`). Each condition is
  needed:
  - For whitespace after a partial group, the test on line 113 can cut
    inside a group: `"ABCDE\nF"` is cut after `"ABCDE"`
    (`StreamDecoder.PartialGroupCut`).
  - A character outside the class and outside whitespace is counted by the
    loop on lines 111-114 and dropped by the filter on line 49, so it shifts
    the cut off the group boundary: `"ABC*"` then `"DEFG"` decodes
    differently from `"ABC*DEFG"` (`StreamDecoder.ForeignCharChunking`).

  So independence from chunking is not claimed for arbitrary text.
- Strings are sequences of Unicode scalar values, not of UTF-16 code units.
  JavaScript's `length` and `buf[length]` count code units. A character
  outside the Basic Multilingual Plane counts once in the model and twice
  in JavaScript, so the decoder's cut can differ on such text. Lone
  surrogates cannot be represented. The decoding of text with such
  characters is therefore not captured.
- UrlSafe.UrlRoundTrip: requires the length to be a multiple of 3. For other
  lengths the dropped padding turns into 0xFF bytes
  (`UrlSafe.UrlPaddingLost`).
- Neither the `Encoder` nor the `Decoder` has a "spent" state after
  `Finish`. The source's closures are never called again after their
  finish callback, so none is needed.
