# BitArray and helpers, modelled in Dafny

This project models the bit-level storage layer of a diagramming tool. It
serialises its diagrams into a compact bit string and back. The layer has two parts.

**The `BitArray` class** (`2/js/BitArray.js`) is a byte buffer read and written as a string of
bits, most significant bit first within each byte.
- **Cursor.** A cursor (`offset`) advances as values are appended or read, and `maxOffset` records
  how far the cursor has gone.
- **Plain operations.** `set`, `append` and `get` move w-bit numbers in and out. `export` copies a
  window into a new array. `equalSequence` compares two windows. `concat` joins the prefixes of two
  arrays. `rotate` transposes a block of lines in place.
- **Compressed zones.** For large widths, `zPush` appends a value as a *line* that either holds the
  value verbatim or refers to bits of earlier lines of the same zone. `fillZCache` decodes a zone's
  lines into a per-zone cache. `zGet` reads a value back, either through that cache or, for
  uncompressed widths, directly.

**Four routines** from `2/js/helpers.js`:
- `_shiftArray` rotates a list with `splice`;
- `statArray` counts occurrences;
- `_configureProperties` fills defaults into a configuration object and copies them onto a target;
- `_getBounds` computes a bounding box.

## Modules

- **`Bits`** (`bits.dfy`): bit strings.
  - Conversion between numbers and w-bit strings (`ToBits`, `ValueOf`).
  - Zero-padded windows (`Padded`) and in-place replacement (`Splice`).
  - The byte-level lemmas that `set` and `get` rely on.
- **`LineFormat`** (`lineformat.dfy`): the compressed line format.
  - `shouldBeCompressed` and the field widths.
  - The decoder `fillZCache` runs (`Step`, `DecodeBlocks`, `DecodeLine`).
  - The encoder `zPush` builds, with its search loops (`FindLine`, `FindPattern`, `Candidates`, `SearchAt`,
    `Shortest`, `SearchLine`), and the round trip between encoder and decoder.
- **`ZoneCache`** (`zone.dfy`): the cache of a zone.
  - How a fill grows it (`NextLine`, `Grown`), and the layout of a zone of pushed lines (`Laid`).
  - The lemmas that a fill over a laid-out zone recovers the values pushed.
- **`BitArrays`** (`bitarray.dfy`): the class `BitArray`.
  - A `const` byte array, the cursor fields and the cache as a map from zone start to cached lines.
  - Each method is specified against the functions above.
- **`Helpers`** (`helpers.dfy`): the four helpers. The array argument and the objects that
  `_shiftArray`, `statArray` and `_configureProperties` work on are small classes, or maps
  their loops fill.

Optional arguments that the source defaults to `-1` or `NaN` are `Option` values (`None` = the default).
Where the source throws a `TypeError` or loops forever on corrupt input, the model returns `None`.

A comment and the code disagree in one place. The comment on `_shiftArray`
(`2/js/helpers.js:367-369`) says that shifting `[1,2,3,4,5]` by 2 gives `[3,4,5,1,2]`. The code,
`splice(-2)` followed by `concat`, gives `[4,5,1,2,3]`. The model follows the code, and
`ShiftExample` proves both facts.

## Model

| member | source | states |
|---|---|---|
| BitArrays.BitArray.constructor | 2/js/BitArray.js:11-17 | a buffer of ceil(bitSize / 8) zero bytes, cursor and maxOffset 0, no cached zone |
| BitArrays.BitArray.FromBytes | 2/js/BitArray.js:14-17 | a BitArray whose bytes are the given ones, cursor and maxOffset 0 |
| BitArrays.BitArray.SetOffset | 2/js/BitArray.js:153-157 | the cursor becomes o and maxOffset the largest of the old maxOffset, the old cursor and o |
| BitArrays.BitArray.ResetOffset | 2/js/BitArray.js:150 | the cursor becomes 0 and maxOffset keeps the largest position reached |
| BitArrays.DefaultWidth | 2/js/BitArray.js:26 | the default width is the least n >= 1 with v < 2^n |
| BitArrays.BitArray.Set | 2/js/BitArray.js:21-67 | the w bits at p become the value's w-bit binary form (msb first) and every other bit is kept; width 0 changes nothing; the cursor moves past the bits only when no offset is given |
| BitArrays.BitArray.SetFrom | 2/js/BitArray.js:21-67 | set with a BitArray value: the w bits read from the value's cursor are written at p, the value's cursor moves past them |
| BitArrays.BitArray.Append | 2/js/BitArray.js:70-73 | set at the cursor: the bits are written there and the cursor moves past them |
| BitArrays.BitArray.AppendFrom | 2/js/BitArray.js:70-73 | append of a BitArray value: its w bits from its cursor are written at this cursor, both cursors move |
| BitArrays.BitArray.ReadAt | 2/js/BitArray.js:251-273 | the number whose binary form is the n bits from p, reading zeros past the end of the buffer |
| BitArrays.BitArray.Get | 2/js/BitArray.js:246-274 | the n-bit number stored at p (at the cursor, which moves past it, when no offset is given) |
| BitArrays.SetThenGet | 2/js/BitArray.js:21-67 | a value set in w bits at p is what get(w, p) reads back |
| BitArrays.SetKeepsOthers | 2/js/BitArray.js:21-67 | a read that does not overlap a write sees the bits as they were |
| BitArrays.Exported | 2/js/BitArray.js:277-309 | an export of w bits occupies whole bytes: 8 * ceil(w / 8) bits |
| BitArrays.BitArray.Export | 2/js/BitArray.js:277-309 | a fresh BitArray of ceil(w / 8) bytes holding the w bits from p followed by zeros, with cursor and maxOffset w; the source's cursor moves only when no offset is given |
| BitArrays.BitArray.EqualSequence | 2/js/BitArray.js:160-166 | true exactly when the two n-bit windows hold the same bits |
| BitArrays.ExportedEqual | 2/js/BitArray.js:160-166 | two exports of the same width have equal bytes exactly when the windows exported are equal |
| BitArrays.BitArray.Concat | 2/js/BitArray.js:169-180 | a fresh array holding this array's bits before its cursor, then the other's before its cursor (read after the first part when the other is this array), then zeros; both cursors are restored |
| BitArrays.BitArray.Rotate | 2/js/BitArray.js:312-326 | the bpl * lc bits at p are replaced by their transposition (bit b of line l goes to line b, bit l); a zero dimension changes nothing; the cursor moves past the block only when no offset is given |
| BitArrays.TransposedAt | 2/js/BitArray.js:319-323 | bit b * lc + l of the rotated block is bit l * bpl + b of the original |
| BitArrays.TransposedTwice | 2/js/BitArray.js:312-326 | rotating with the dimensions swapped undoes a rotation |
| LineFormat.CeilLog2 | 2/js/BitArray.js:77 | ceil(log2 n): the least c with n <= 2^c |
| LineFormat.ShouldBeCompressedExactly | 2/js/BitArray.js:76-84 | widths w >= 1 are compressed exactly when 30 <= w <= 32 or w >= 36 |
| LineFormat.ShouldBeCompressedSamples | 2/js/BitArray.js:76-84 | width 4 is not compressed and width 64 is |
| LineFormat.Step | 2/js/BitArray.js:207-220 | one block of a line: it only extends the bits found, moves by the fields it reads, and fails exactly for a reference to a line before the zone's first |
| LineFormat.DecodeBlocks | 2/js/BitArray.js:204-222 | the block loop, when it ends, has found at least w bits starting with those already found |
| LineFormat.DecodeLine | 2/js/BitArray.js:200-224 | a decoded line carries at least w bits and takes at least one bit |
| LineFormat.DecodeEncoded | 2/js/BitArray.js:205-222 | decoding the encoding of valid blocks gives back the value's bits and ends right after the encoding |
| LineFormat.DecodeCompressed | 2/js/BitArray.js:113-130 | a reference line built from valid blocks decodes to the value pushed and ends where it was written |
| LineFormat.DecodeVerbatim | 2/js/BitArray.js:144 | the default line (a 0 bit and the value) decodes to the value and takes w + 1 bits |
| LineFormat.FindLine | 2/js/BitArray.js:111-112 | the first earlier line, newest first, that matches the pattern, and that no line before it matches |
| LineFormat.FindPattern | 2/js/BitArray.js:110-112 | the longest pattern at the offset that some earlier line matches, with the first such line; no longer pattern matches any line |
| LineFormat.Candidates | 2/js/BitArray.js:109-141 | every candidate the search collects is a valid block list for the value (always for the capped search, and for the search as written when w < 2^SizeBits(w)); a full match as written yields the one full-length reference; for the capped search at a compressed width, a value whose leading bits a line within reference range holds gets a first candidate that starts with a reference and is shorter than w |
| LineFormat.SearchAt | 2/js/BitArray.js:109-139 | one offset of the search keeps the loop's invariant: the current prefix covers the bits before its end, every candidate stays valid, and once past offset 0 a repeated prefix has produced the short first candidate; a full match as written at offset 0 ends the search with the one full-length reference |
| LineFormat.NewestRepeated | 2/js/BitArray.js:110-112 | a value equal to the newest line is repeated: the first line the search compares holds its leading bits at the longest pattern length the capped search tries |
| LineFormat.CandidateLines | 2/js/BitArray.js:113-130 | candidate j is written as a 1 bit followed by the encoding of its blocks |
| LineFormat.Shortest | 2/js/BitArray.js:142-145 | the reduce: the first shortest candidate, and the default line unless a candidate is strictly shorter |
| LineFormat.SearchLine | 2/js/BitArray.js:98-146 | the line zPush writes: the default line or a shorter reference line, which decodes to the value pushed (capped search; as written only when w < 2^SizeBits(w)), and the undecodable full-match line as written when the whole value matches; the capped search compresses: at a compressed width, a value whose leading bits one of the last 2^RefBits(w) lines holds is written as a reference line shorter than w + 1 |
| LineFormat.FullMatchEncoding | 2/js/BitArray.js:110-123 | a full-length match is written as the line FullMatchLine, shorter than the default line |
| LineFormat.FullMatchMisdecodes | 2/js/BitArray.js:207-216 | for w a power of two, the decoder does not stop at the end of the full-match line: it fails or reads past it |
| LineFormat.FullMatchUndecodable | 2/js/BitArray.js:122 | for w a power of two, the full-match line never decodes to the value |
| LineFormat.FullMatchAt32 | 2/js/BitArray.js:110-123 | at width 32, a value that equals the zone's previous line is a full match, and its full-match line does not decode to it |
| ZoneCache.NextLine | 2/js/BitArray.js:200-224 | the next cache line starts where the last one ends; a line starting with a 0 bit holds the w bits after it and takes w + 1 bits |
| ZoneCache.Initial | 2/js/BitArray.js:188-190 | an empty or missing zone cache starts with line 0, the w bits at the zone's start |
| ZoneCache.GrowingStep | 2/js/BitArray.js:192-225 | adding the next decoded line keeps the fill loop's invariant |
| ZoneCache.RemainingDrops | 2/js/BitArray.js:192-225 | each line added brings the fill nearer its stopping rule (the loop terminates) |
| ZoneCache.FillToZoneEnd | 2/js/BitArray.js:193 | a fill to the cursor of a laid-out zone decodes every line and recovers every value pushed |
| ZoneCache.SequentialRead | 2/js/BitArray.js:194-196 | a fill past a cursor at line j stops after line j, which holds value j and ends where line j + 1 starts |
| ZoneCache.IndexedRead | 2/js/BitArray.js:198 | a fill to line n holds value n at line n |
| ZoneCache.ZoneStarts | 2/js/BitArray.js:93 | the first push at the zone's start lays out a zone of one line |
| ZoneCache.ZoneGrows | 2/js/BitArray.js:146 | writing a line that decodes to the value at the zone's end extends the zone by that value |
| ZoneCache.InitialFits | 2/js/BitArray.js:188-191 | a cache that agrees with the zone starts the fill with lines of the zone |
| ZoneCache.CacheAfterPush | 2/js/BitArray.js:96-146 | the cache zPush leaves agrees with the zone after the push |
| ZoneCache.FirstRead | 2/js/BitArray.js:190 | line 0 of any fill holds the zone's first value |
| ZoneCache.IndexedReadAny | 2/js/BitArray.js:236-240 | with a cache that agrees with the zone, a fill to line n yields value n at line n |
| ZoneCache.FromEndRead | 2/js/BitArray.js:241 | with the cursor at the zone's end, line -k from the end holds the value k from the end |
| ZoneCache.PushedZone | 2/js/BitArray.js:96-146 | a push that writes a line decoding to the value against the cache keeps the zone laid out with that value added and the cache in agreement |
| ZoneCache.ZoneFills | 2/js/BitArray.js:96 | zPush's fill of a laid-out zone succeeds and yields all its values |
| ZoneCache.ReadFill | 2/js/BitArray.js:235-242 | each of zGet's three fills over a laid-out zone yields the value asked for |
| BitArrays.BitArray.DecodeBlocksAt | 2/js/BitArray.js:204-222 | the block loop over the buffer decodes as DecodeBlocks says |
| BitArrays.BitArray.DecodeLineAt | 2/js/BitArray.js:202-223 | reading a line from the buffer decodes as DecodeLine says |
| BitArrays.BitArray.NextLineAt | 2/js/BitArray.js:200-224 | the line read after the cached lines is NextLine of the buffer |
| BitArrays.BitArray.GrowLines | 2/js/BitArray.js:192-225 | the fill loop adds lines until its stopping rule and fails only on a line that does not decode |
| BitArrays.BitArray.FillZCache | 2/js/BitArray.js:184-226 | only this zone's cache changes and it grows as Grown says; a fill past the cursor that stops moves the cursor to the end of the last line |
| BitArrays.BitArray.AppendBits | 2/js/BitArray.js:146 | the winning line is written at the cursor, every other bit is kept, and the cursor moves past it |
| BitArrays.BitArray.ZCompress | 2/js/BitArray.js:94-146 | the compressed push writes at the cursor the default line or a shorter reference line that decodes to the value against the cache, and keeps a laid-out zone laid out with the value added; a value repeated in the cache, in particular one equal to the zone's newest value, is written as a reference line shorter than w + 1 (uses the capped search; see Findings) |
| BitArrays.BitArray.ZPush | 2/js/BitArray.js:91-147 | zPush of a number: a plain w-bit append for an uncompressed width or an empty zone; otherwise a line that decodes to the value is written at the cursor and the zone stays laid out with the value added, and a value equal to the zone's newest one, or whose leading bits a cached line holds, is written as a reference line shorter than w + 1 (capped search; see Findings) |
| BitArrays.BitArray.ZPushArray | 2/js/BitArray.js:91-147 | zPush of a BitArray: as ZPush, using w bits of the value, including the shorter reference line for a repeated value; its cursor moves as the source's appends and exports move it |
| BitArrays.PlainZoneGrows | 2/js/BitArray.js:92 | a plain push at the end of a plain zone adds the value as its next line, and that line reads back as the value |
| BitArrays.BitArray.GetLine | 2/js/BitArray.js:230-233 | zGet for an uncompressed width, as written: line n of the zone, the cursor (which moves), or for zLine < 0 the bits at offset + abs(zLine) * w, after the cursor |
| BitArrays.BackReadAsWritten | 2/js/BitArray.js:232 | after zPush(5, 8) into a fresh 24-bit array, the line zGet(8, 0, -1) reads as written holds 0 while the last line pushed holds 5 |
| BitArrays.BitArray.PlainRead | 2/js/BitArray.js:230-233 | corrected uncompressed zGet: a negative zLine reads the line abs(zLine) back from the cursor (None before bit 0), so with the cursor at a plain zone's end line -k reads the value k from the end |
| BitArrays.PlainZoneRead | 2/js/BitArray.js:231-232 | in a plain zone, line n holds value n, and the line k back from the zone's end holds the value k from the end |
| BitArrays.BitArray.ZRead | 2/js/BitArray.js:235-242 | compressed zGet: the cache is filled as zLine asks and the line asked for is returned; over a laid-out zone, a reader at line j gets value j and moves to line j + 1, line n gives value n (line 0 included), line -k gives the value k from the end |
| BitArrays.BitArray.ZGet | 2/js/BitArray.js:229-243 | zGet: GetLine for an uncompressed width (in a plain zone line n reads value n and a reader at line j reads value j), ZRead otherwise |
| Helpers.List.SpliceFrom | 2/js/helpers.js:371 | splice(start): the elements from the normalised start are removed and returned, the rest stay |
| Helpers.SpliceStart | 2/js/helpers.js:371 | the normalised start of splice lies within the array |
| Helpers.ShiftArray | 2/js/helpers.js:370-373 | the result is the shifted array (its last k elements, then the rest) and the argument keeps only the elements not moved |
| Helpers.ShiftedRotates | 2/js/helpers.js:370-373 | for 0 < k <= n, shifting by k is a right rotation by k: element i comes from position i - k, wrapping around |
| Helpers.ShiftedWhole | 2/js/helpers.js:371 | a shift by 0, or by the length or more, leaves the array as it is (splice(-0) takes every element) |
| Helpers.ShiftedLeft | 2/js/helpers.js:371 | a shift by a negative k is a left rotation by abs(k) |
| Helpers.ShiftedPermutes | 2/js/helpers.js:370-373 | every shift is a permutation of the array |
| Helpers.ShiftedInverse | 2/js/helpers.js:370-373 | shifting by k and then by n - k gives the array back |
| Helpers.ShiftExample | 2/js/helpers.js:367-373 | shifting [1,2,3,4,5] by 2 gives [4,5,1,2,3], not the [3,4,5,1,2] of the comment |
| Helpers.StatArray | 2/js/helpers.js:377-381 | the map from each element present to the number of times it occurs |
| Helpers.CountsSum | 2/js/helpers.js:377-381 | the counts of the distinct elements add up to the length of the array |
| Helpers.ConfigureProperties | 2/js/helpers.js:277-293 | after the loop, both objects are what handling each property in order gives |
| Helpers.ConfiguredRules | 2/js/helpers.js:282-289 | for distinct keys: a defined config value is kept, an undefined one gets the default (its call's result for a function), self receives the config value, and keys not listed are untouched in both objects |
| Helpers.ConfiguredFixed | 2/js/helpers.js:277-293 | when every key already holds a defined config value that self mirrors, nothing changes |
| Helpers.ConfigureIdempotent | 2/js/helpers.js:277-293 | configuring twice with defaults that resolve to defined values is the same as configuring once |
| Helpers.GetBounds | 2/js/helpers.js:225-248 | left and top are the least and right and bottom the greatest coordinates, each reached by a point (+Infinity / -Infinity with no points); width and height are right - left and bottom - top |
| Helpers.EmptyBounds | 2/js/helpers.js:228 | with no points the bounds are the infinities and width and height are -Infinity |
| Helpers.BoundsOrdered | 2/js/helpers.js:239-240 | with at least one point, width and height are finite and not negative |

## Left out

- ZRead: the cached line is returned as its bits (`seq<bool>`), not as the cached `BitArray` object with its own cursor (2/js/BitArray.js:239-242). Aliasing between the value returned and the cache is therefore not modelled.
- ZGet: as ZRead. It also requires `0 < w`, and `w <= 31` for an uncompressed width. A zLine that is infinite or fractional is not modelled (it is an `Option<int>`).
- Set: the write must lie inside the buffer. JavaScript typed arrays drop writes past their end; the model makes the bound a precondition. The value must fit in its width (the source's `|` would mix in higher bits), and widths are at most 32.
- SetFrom: the same buffer bound. It also requires that the source array be over a different buffer, so arrays that share a buffer are not modelled. The same holds for AppendFrom, Concat (except `concat(self)`), ZPushArray and the other `src.rawData != rawData` requirements.
- Rotate: the block must lie inside the buffer.
- WriteBits: the bits written must lie inside the buffer, and they are written one at a time.
- ZPush: a plain push needs room for w bits, and a compressed push for w + 1 bits (the longest line). Widths are at most 32, and width 0 is excluded. In the source, width 0 is a no-op append only when the zone is empty (its start is the cursor). Otherwise `shouldBeCompressed(0)` holds, because `Math.log2(0)` is -Infinity. That makes `minFragmentSize` -Infinity and `maxPrevious` 0, so the pattern loop at 2/js/BitArray.js:110 counts down for ever and the push never returns.
- ZPushArray: as ZPush, and the ghost zone arguments describe the compressed push only.
- ZCompress: uses the capped search, so for widths that are powers of two it writes a decodable line where the source writes the undecodable full-match line (see Findings). The round trip PushedZone / ZoneFills is proved for this corrected encoder.
- FromBytes: copies the given bytes into a fresh buffer, while the source wraps a passed-in buffer without copying (2/js/BitArray.js:14). Sharing of that buffer with the caller is not modelled.
- Get: widths are at most 31, because the source's shifts are 32-bit signed. Reads past the buffer give zero bits, as undefined entries do in the source's bitwise operations.
- ReadAt: as Get.
- DecodeBlocksAt: `None` stands both for the decoder's endless loop (zero-length literal blocks past the end of the buffer) and for its TypeError (a reference to a line before line 0).
- FillZCache: as DecodeBlocksAt. The cache is never invalidated by later `set` calls; the zone lemmas assume a zone is written only through zPush.
- StatArray: the model is generic in the element type. JavaScript coerces every key to a string, so there `1` and `"1"` share one count. A key such as `"constructor"` finds a property inherited by `{}`, which yields NaN in the source; neither case is modelled.
- GetBounds: coordinates are finite reals. NaN coordinates and the floating-point rounding of `right - left` are not modelled.
- ConfigureProperties: requires `self != config`, so the case where both objects are the same is not modelled. A default that is a function is modelled by the value its call returns (`Call(result)`), so side effects of that call are not modelled. Inherited properties of `config` are modelled as absent keys.
- ShiftArray: shiftIndex is an integer; JavaScript's conversion of other numbers in `splice` is not modelled.
- The rest of 2/js/helpers.js (DOM builders, colour blending, trigonometry, URL parsing) is not part of this model, and neither are the other files of the repository.

## Findings

| source | as written | input that shows it | evidently intended | confidence | as-written member | corrected member |
|---|---|---|---|---|---|---|
| 2/js/BitArray.js:110-122 | the search starts at `patternSize = bitSize - offset` and writes it in ceil(log2 bitSize) bits, so for bitSize a power of two a full-length match is written as length 0 | zPush of a 32-bit value equal to the zone's previous line: the line written is 1, 1, five 0 bits, ref 0, which does not decode to the value | pattern lengths capped at 2^c - 1 so that each fits its field, and so that every line written decodes to the value | medium, not executed | LineFormat.FullMatchAt32 | BitArrays.BitArray.ZCompress |
| 2/js/BitArray.js:232 | with an uncompressed width and zLine < 0, `self.get(bitSize, self.offset - zLine * bitSize)` reads abs(zLine) lines after the cursor | `new BitArray(24)`, `zPush(5, 8)`, `zGet(8, 0, -1)` reads bits 16..23 and returns 0 | the line abs(zLine) back from the cursor, which is what the compressed branch returns (2/js/BitArray.js:241) | medium, not executed | BitArrays.BitArray.GetLine | BitArrays.BitArray.PlainRead |

For the first row:
- **As written.** `LineFormat.SearchLine` with `capped` false is the search as written. It returns the full-match line whenever the whole value matches. `LineFormat.FullMatchUndecodable` and `LineFormat.FullMatchMisdecodes` show that this line never decodes to the value at any power-of-two width.
- **Corrected.** `ZCompress`, `ZPush` and `ZPushArray` use the capped search, and `ZoneCache.PushedZone` proves the round trip for it. The cap still lets the search compress: `LineFormat.SearchLine` writes a repeated value as a reference line shorter than w + 1, as the source's full match aimed to.

For the second row:
- **As written.** `BitArrays.BackReadAsWritten` is the concrete input.
- **Corrected.** `BitArrays.PlainZoneRead` and `BitArrays.PlainZoneGrows` give the plain-zone round trip for the corrected read.
- **What ZGet does.** `ZGet` keeps the read as written, the source's behaviour. `PlainRead` stands beside it as the intended read.
