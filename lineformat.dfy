/**
 * The line format of a compressed zone.
 *
 * A zone holds fixed-width lines of w bits.  Its first line is stored as
 * w raw bits.  Every later line starts with a flag bit:
 *   - flag 0: the w bits of the line follow verbatim;
 *   - flag 1: a sequence of sub-blocks follows, until w bits are known:
 *       0, len (c bits), len literal bits;
 *       1, len (c bits), back (r bits): the len bits at the same position
 *          of the line `back + 1` lines before the one being decoded.
 * Here c = ceil(log2 w) and r = floor(c / 2).
 *
 * This module holds the decoder as functions, the encoder's search for a
 * short encoding as a method, and the lemmas that connect them.
 */
module LineFormat {
  import opened Bits

  datatype Option<T> = None | Some(value: T)

  function Min(a: nat, b: nat): nat
  {
    if a <= b then a else b
  }

  /** ceil(log2 n), the value Math.ceil(Math.log2(n)) has for n >= 1. */
  function CeilLog2(n: nat): (c: nat)
    ensures n <= Pow2(c)
    ensures c > 0 ==> Pow2(c - 1) < n
  {
    if n <= 1 then 0 else 1 + CeilLog2(Half(n + 1))
  }

  /** bitForDataSize: the width of a length field. */
  function SizeBits(w: nat): nat
  {
    CeilLog2(w)
  }

  /** refBitSize: the width of a back-reference field. */
  function RefBits(w: nat): nat
  {
    Half(CeilLog2(w))
  }

  lemma RefBitsWithin(w: nat)
    ensures RefBits(w) <= SizeBits(w)
  {
  }

  /** minFragmentSize: a match must be longer than this to be used. */
  function MinFragment(w: nat): nat
  {
    1 + SizeBits(w) + RefBits(w) + 1 + SizeBits(w)
  }

  /**
   * Whether lines of w bits are compressed at all.  For w == 0 the
   * source's Math.log2 gives -Infinity and the comparison holds.
   */
  predicate ShouldBeCompressed(w: nat)
  {
    w == 0 || w >= 3 * (1 + 1 + 1 + SizeBits(w) + RefBits(w))
  }

  lemma {:induction false} Pow2Grows(c: nat)
    requires c >= 7
    ensures Pow2(c - 1) >= 3 * (3 + c + c / 2)
  {
    if c == 7 {
      assert Pow2(6) == 64;
    } else {
      Pow2Grows(c - 1);
      assert Pow2(c - 1) == 2 * Pow2(c - 2);
    }
  }

  /** CeilLog2 is pinned down by its two bounds. */
  lemma CeilLog2Is(n: nat, c: nat)
    requires c > 0 && Pow2(c - 1) < n <= Pow2(c)
    ensures CeilLog2(n) == c
  {
    var d := CeilLog2(n);
    if d < c {
      Pow2Mono(d, c - 1);
    } else if d > c {
      Pow2Mono(c, d - 1);
    }
  }

  /** The widths that are compressed: 30, 31, 32 and from 36 on. */
  lemma ShouldBeCompressedExactly(w: nat)
    requires w >= 1
    ensures ShouldBeCompressed(w) <==> (30 <= w <= 32 || w >= 36)
  {
    assert Pow2(3) == 8 && Pow2(4) == 16 && Pow2(5) == 32 && Pow2(6) == 64;
    if 8 < w <= 16 {
      CeilLog2Is(w, 4);
    } else if 16 < w <= 32 {
      CeilLog2Is(w, 5);
    } else if 32 < w <= 64 {
      CeilLog2Is(w, 6);
    } else if w > 64 {
      var c := CeilLog2(w);
      if c <= 6 {
        Pow2Mono(c, 6);
      }
      Pow2Grows(c);
    }
  }

  lemma ShouldBeCompressedSamples()
    ensures !ShouldBeCompressed(4) && ShouldBeCompressed(64)
  {
    ShouldBeCompressedExactly(4);
    ShouldBeCompressedExactly(64);
  }

  // ---------------------------------------------------------------------
  // Decoding

  /** Bit i of bits, reading zero past the end as the source's typed array does. */
  function Bit(bits: seq<bool>, i: nat): bool
  {
    i < |bits| && bits[i]
  }

  /** x and y agree on the n bits from bit k, both read with zeros past their ends. */
  predicate SameBits(x: seq<bool>, y: seq<bool>, k: nat, n: nat)
    decreases n
  {
    n == 0 || (Bit(x, k + n - 1) == Bit(y, k + n - 1) && SameBits(x, y, k, n - 1))
  }

  lemma {:induction false} SameBitsPadded(x: seq<bool>, y: seq<bool>, k: nat, n: nat)
    ensures SameBits(x, y, k, n) <==> Padded(x, k, n) == Padded(y, k, n)
    decreases n
  {
    if n > 0 {
      SameBitsPadded(x, y, k, n - 1);
      var px, py := Padded(x, k, n), Padded(y, k, n);
      assert px[..n - 1] == Padded(x, k, n - 1) && py[..n - 1] == Padded(y, k, n - 1);
      if Padded(x, k, n) == Padded(y, k, n) {
        assert px[n - 1] == py[n - 1];
      }
      if SameBits(x, y, k, n) {
        assert px == px[..n - 1] + [px[n - 1]] && py == py[..n - 1] + [py[n - 1]];
      }
    }
  }

  /**
   * The n-bit unsigned field at bit `at` of bits, most significant bit
   * first, with zeros past the end.
   */
  function Field(bits: seq<bool>, at: nat, n: nat): nat
  {
    if n == 0 then 0 else 2 * Field(bits, at, n - 1) + (if Bit(bits, at + n - 1) then 1 else 0)
  }

  lemma {:induction false} FieldIsValueOf(bits: seq<bool>, at: nat, n: nat)
    requires at + n <= |bits|
    ensures Field(bits, at, n) == ValueOf(bits[at..at + n])
  {
    if n > 0 {
      FieldIsValueOf(bits, at, n - 1);
      assert bits[at..at + n][..n - 1] == bits[at..at + n - 1];
    }
  }

  /** A field is the value of the zero-padded bits it spans: what get(n, at) reads. */
  lemma {:induction false} FieldPadded(bits: seq<bool>, at: nat, n: nat)
    ensures Field(bits, at, n) == ValueOf(Padded(bits, at, n))
  {
    if n > 0 {
      FieldPadded(bits, at, n - 1);
      assert Padded(bits, at, n)[..n - 1] == Padded(bits, at, n - 1);
    }
  }

  /** get(1, at) reads 1 exactly where the bit is set. */
  lemma BitPadded(bits: seq<bool>, at: nat)
    ensures ValueOf(Padded(bits, at, 1)) == (if Bit(bits, at) then 1 else 0)
  {
    assert Padded(bits, at, 1)[..0] == [];
  }

  /** A decoded line: its content, and the bit position just after it. */
  datatype Decoded = Decoded(content: seq<bool>, end: nat)

  /**
   * Reads one sub-block at bit p: the position after it and the content
   * with its bits appended.  None stands for a reference to a line before
   * the zone's first one, on which the source throws a TypeError.
   */
  function Step(bits: seq<bool>, p: nat, got: seq<bool>, w: nat, hist: seq<seq<bool>>): (st: Option<(nat, seq<bool>)>)
    ensures st.Some? ==> got <= st.value.1
    ensures st.Some? ==>
              st.value.0 == p + 1 + SizeBits(w) + (if Bit(bits, p) then RefBits(w) else Field(bits, p + 1, SizeBits(w)))
    ensures st.None? <==> Bit(bits, p) && Field(bits, p + 1 + SizeBits(w), RefBits(w)) >= |hist|
  {
    var c, r := SizeBits(w), RefBits(w);
    var len := Field(bits, p + 1, c);
    if !Bit(bits, p) then Some((p + 1 + c + len, got + Padded(bits, p + 1 + c, len)))
    else
      var back := Field(bits, p + 1 + c, r);
      if back >= |hist| then None
      else Some((p + 1 + c + r, got + Padded(hist[|hist| - 1 - back], |got|, len)))
  }

  /** A literal sub-block, read field by field. */
  lemma StepLit(bits: seq<bool>, p: nat, got: seq<bool>, w: nat, hist: seq<seq<bool>>, t: nat, len: nat)
    requires t == ValueOf(Padded(bits, p, 1)) && t == 0
    requires len == ValueOf(Padded(bits, p + 1, SizeBits(w)))
    ensures Step(bits, p, got, w, hist) == Some((p + 1 + SizeBits(w) + len, got + Padded(bits, p + 1 + SizeBits(w), len)))
  {
    BitPadded(bits, p);
    FieldPadded(bits, p + 1, SizeBits(w));
  }

  /** A reference sub-block, read field by field. */
  lemma StepRef(bits: seq<bool>, p: nat, got: seq<bool>, w: nat, hist: seq<seq<bool>>, t: nat, len: nat, back: nat)
    requires t == ValueOf(Padded(bits, p, 1)) && t != 0
    requires len == ValueOf(Padded(bits, p + 1, SizeBits(w)))
    requires back == ValueOf(Padded(bits, p + 1 + SizeBits(w), RefBits(w)))
    ensures Step(bits, p, got, w, hist) ==
              if back >= |hist| then None
              else Some((p + 1 + SizeBits(w) + RefBits(w), got + Padded(hist[|hist| - 1 - back], |got|, len)))
  {
    BitPadded(bits, p);
    FieldPadded(bits, p + 1, SizeBits(w));
    FieldPadded(bits, p + 1 + SizeBits(w), RefBits(w));
  }

  /**
   * Decodes the sub-blocks of a compressed line starting at bit p of bits,
   * with `got` the content decoded so far and hist the contents of the
   * zone's earlier lines, until at least w bits are known.  Data past the
   * end of the buffer reads as zeros; a sub-block that starts past the end
   * makes the source loop for ever (it reads zero-length literals there),
   * which is None here.
   */
  function DecodeBlocks(bits: seq<bool>, p: nat, got: seq<bool>, w: nat, hist: seq<seq<bool>>): (d: Option<Decoded>)
    ensures d.Some? ==> got <= d.value.content && |d.value.content| >= w && d.value.end >= p
    decreases |bits| - p
  {
    if |got| >= w then Some(Decoded(got, p))
    else if p >= |bits| then None
    else
      match Step(bits, p, got, w, hist)
      case None => None
      case Some((q, got')) => DecodeBlocks(bits, q, got', w, hist)
  }

  /** Decodes the line that starts at bit p (any line but the zone's first). */
  function DecodeLine(bits: seq<bool>, p: nat, w: nat, hist: seq<seq<bool>>): (d: Option<Decoded>)
    ensures d.Some? ==> |d.value.content| >= w && d.value.end > p
  {
    if Bit(bits, p) then DecodeBlocks(bits, p + 1, [], w, hist)
    else Some(Decoded(Padded(bits, p + 1, w), p + 1 + w))
  }

  /** Slices of a stretch of bits are slices of the bits. */
  lemma SliceInside(bits: seq<bool>, s: seq<bool>, p: nat, i: nat, j: nat)
    requires p + |s| <= |bits| && bits[p..p + |s|] == s && i <= j <= |s|
    ensures bits[p + i..p + j] == s[i..j]
  {
    forall t | 0 <= t < j - i
      ensures bits[p + i..p + j][t] == s[i..j][t]
    {
      assert bits[p + i + t] == bits[p..p + |s|][i + t];
    }
  }

  lemma PaddedInside(bits: seq<bool>, s: seq<bool>, p: nat, from: nat, n: nat)
    requires p + |s| <= |bits| && bits[p..p + |s|] == s && from + n <= |s|
    ensures Padded(bits, p + from, n) == Padded(s, from, n) == s[from..from + n]
  {
    var pb, sl := Padded(bits, p + from, n), s[from..from + n];
    forall t | 0 <= t < n
      ensures pb[t] == sl[t]
    {
      assert bits[p + from + t] == bits[p..p + |s|][from + t];
    }
  }

  lemma {:induction false} FieldInside(bits: seq<bool>, s: seq<bool>, p: nat, at: nat, n: nat)
    requires p + |s| <= |bits| && bits[p..p + |s|] == s && at + n <= |s|
    ensures Field(bits, p + at, n) == Field(s, at, n)
  {
    if n > 0 {
      FieldInside(bits, s, p, at, n - 1);
      assert bits[p + at + n - 1] == bits[p..p + |s|][at + n - 1];
    }
  }

  /** A field holding ToBits(x, n) reads back as x. */
  lemma FieldOfToBits(s: seq<bool>, at: nat, x: nat, n: nat)
    requires x < Pow2(n) && at + n <= |s| && s[at..at + n] == ToBits(x, n)
    ensures Field(s, at, n) == x
  {
    FieldIsValueOf(s, at, n);
    ValueOfToBitsExact(x, n);
  }

  lemma StepLocal(s: seq<bool>, k: nat, got: seq<bool>, w: nat, hist: seq<seq<bool>>, bits: seq<bool>, p: nat)
    requires Step(s, k, got, w, hist).Some? && Step(s, k, got, w, hist).value.0 <= |s|
    requires p + |s| <= |bits| && bits[p..p + |s|] == s
    ensures Step(bits, p + k, got, w, hist) == Some((p + Step(s, k, got, w, hist).value.0, Step(s, k, got, w, hist).value.1))
  {
    var c, r := SizeBits(w), RefBits(w);
    assert bits[p + k] == s[k];
    FieldInside(bits, s, p, k + 1, c);
    var len := Field(s, k + 1, c);
    if !s[k] {
      PaddedInside(bits, s, p, k + 1 + c, len);
    } else {
      FieldInside(bits, s, p, k + 1 + c, r);
    }
  }

  /** Decoding a line reads only the bits of that line. */
  lemma {:induction false} DecodeBlocksLocal(s: seq<bool>, k: nat, got: seq<bool>, w: nat, hist: seq<seq<bool>>,
                                             bits: seq<bool>, p: nat, x: seq<bool>, e: nat)
    requires DecodeBlocks(s, k, got, w, hist) == Some(Decoded(x, e)) && e <= |s|
    requires p + |s| <= |bits| && bits[p..p + |s|] == s
    ensures DecodeBlocks(bits, p + k, got, w, hist) == Some(Decoded(x, p + e))
    decreases |s| - k
  {
    if |got| < w {
      var st := Step(s, k, got, w, hist);
      var q := st.value.0;
      assert q <= |s|;
      StepLocal(s, k, got, w, hist, bits, p);
      DecodeBlocksLocal(s, q, st.value.1, w, hist, bits, p, x, e);
    }
  }

  lemma DecodeLineLocal(s: seq<bool>, w: nat, hist: seq<seq<bool>>, bits: seq<bool>, p: nat, x: seq<bool>)
    requires DecodeLine(s, 0, w, hist) == Some(Decoded(x, |s|))
    requires p + |s| <= |bits| && bits[p..p + |s|] == s
    ensures DecodeLine(bits, p, w, hist) == Some(Decoded(x, p + |s|))
  {
    assert bits[p] == s[0];
    if s[0] {
      DecodeBlocksLocal(s, 1, [], w, hist, bits, p, x, |s|);
    } else {
      assert |s| == 1 + w;
      PaddedInside(bits, s, p, 1, w);
    }
  }

  // ---------------------------------------------------------------------
  // Encoding

  /**
   * A sub-block of a compressed line: `len` literal bits of the line, or a
   * reference to `len` bits of the line `back + 1` lines before.
   */
  datatype Block = Lit(len: nat) | Ref(len: nat, back: nat)

  /** The bits of block b, when it starts at position k of the line vb. */
  function EncodeBlock(b: Block, vb: seq<bool>, k: nat, w: nat): seq<bool>
  {
    match b
    case Lit(n) => [false] + ToBits(n, SizeBits(w)) + Padded(vb, k, n)
    case Ref(n, back) => [true] + ToBits(n, SizeBits(w)) + ToBits(back, RefBits(w))
  }

  /**
   * The bits of a sequence of blocks, each encoded by f from the line
   * position where it starts.  The structural lemmas below hold for any f,
   * so that their proofs never look inside a block's encoding.
   */
  function Chain(f: (Block, nat) -> seq<bool>, blocks: seq<Block>, k: nat): seq<bool>
    decreases |blocks|
  {
    if blocks == [] then [] else f(blocks[0], k) + Chain(f, blocks[1..], k + blocks[0].len)
  }

  /** The block encoder of the line vb, for lines of w bits. */
  function BlockEncoder(vb: seq<bool>, w: nat): (Block, nat) -> seq<bool>
  {
    (b: Block, at: nat) => EncodeBlock(b, vb, at, w)
  }

  /** The bits of blocks, the first of which starts at position k of vb. */
  function Encode(blocks: seq<Block>, vb: seq<bool>, k: nat, w: nat): seq<bool>
  {
    Chain(BlockEncoder(vb, w), blocks, k)
  }

  /**
   * Block b may stand at position k of vb: it is not empty, its length fits
   * the length field, and a reference names an existing earlier line that
   * holds the same bits at the same position.
   */
  ghost predicate BlockOk(b: Block, vb: seq<bool>, k: nat, w: nat, hist: seq<seq<bool>>)
  {
    0 < b.len && b.len < Pow2(SizeBits(w))
    && (b.Ref? ==> b.back < Pow2(RefBits(w)) && b.back < |hist|
                   && SameBits(vb, hist[|hist| - 1 - b.back], k, b.len))
  }

  /** The blocks cover vb[k..end] exactly, each of them allowed where it stands. */
  ghost predicate ValidBlocks(blocks: seq<Block>, vb: seq<bool>, k: nat, end: nat, w: nat, hist: seq<seq<bool>>)
    decreases |blocks|
  {
    if blocks == [] then k == end
    else
      BlockOk(blocks[0], vb, k, w, hist) && k + blocks[0].len <= end
      && ValidBlocks(blocks[1..], vb, k + blocks[0].len, end, w, hist)
  }

  /** The number of line bits the blocks stand for. */
  function Total(blocks: seq<Block>): nat
    decreases |blocks|
  {
    if blocks == [] then 0 else blocks[0].len + Total(blocks[1..])
  }

  lemma {:induction false} ValidTotal(blocks: seq<Block>, vb: seq<bool>, k: nat, end: nat, w: nat, hist: seq<seq<bool>>)
    requires ValidBlocks(blocks, vb, k, end, w, hist)
    ensures end == k + Total(blocks)
    decreases |blocks|
  {
    if blocks != [] {
      ValidTotal(blocks[1..], vb, k + blocks[0].len, end, w, hist);
    }
  }

  lemma {:induction false} ValidAppend(a: seq<Block>, b: seq<Block>, vb: seq<bool>, k: nat, mid: nat, end: nat, w: nat, hist: seq<seq<bool>>)
    requires ValidBlocks(a, vb, k, mid, w, hist) && ValidBlocks(b, vb, mid, end, w, hist)
    ensures ValidBlocks(a + b, vb, k, end, w, hist)
    decreases |a|
  {
    if a == [] {
      assert a + b == b;
    } else {
      assert (a + b)[1..] == a[1..] + b;
      ValidAppend(a[1..], b, vb, k + a[0].len, mid, end, w, hist);
    }
  }

  lemma PrefixExtend(vb: seq<bool>, k: nat, n: nat)
    requires k + n <= |vb|
    ensures vb[..k] + Padded(vb, k, n) == vb[..k + n]
  {
  }

  /** e sits in s at bit p. */
  ghost predicate HoldsAt(s: seq<bool>, p: nat, e: seq<bool>)
  {
    p + |e| <= |s| && s[p..p + |e|] == e
  }

  /** The fields of a literal sub-block found at bit p. */
  lemma LitFields(s: seq<bool>, p: nat, n: nat, c: nat, t: seq<bool>)
    requires n < Pow2(c) && HoldsAt(s, p, [false] + ToBits(n, c) + t)
    ensures !Bit(s, p) && Field(s, p + 1, c) == n && Padded(s, p + 1 + c, |t|) == t
  {
    var e := [false] + ToBits(n, c) + t;
    assert s[p] == e[0];
    SliceInside(s, e, p, 1, 1 + c);
    assert e[1..1 + c] == ToBits(n, c);
    FieldOfToBits(s, p + 1, n, c);
    PaddedInside(s, e, p, 1 + c, |t|);
    assert e[1 + c..1 + c + |t|] == t;
  }

  /** The fields of a reference sub-block found at bit p. */
  lemma RefFields(s: seq<bool>, p: nat, n: nat, c: nat, back: nat, r: nat)
    requires n < Pow2(c) && back < Pow2(r) && HoldsAt(s, p, [true] + ToBits(n, c) + ToBits(back, r))
    ensures Bit(s, p) && Field(s, p + 1, c) == n && Field(s, p + 1 + c, r) == back
  {
    var e := [true] + ToBits(n, c) + ToBits(back, r);
    assert s[p] == e[0];
    SliceInside(s, e, p, 1, 1 + c);
    assert e[1..1 + c] == ToBits(n, c);
    FieldOfToBits(s, p + 1, n, c);
    SliceInside(s, e, p, 1 + c, 1 + c + r);
    assert e[1 + c..1 + c + r] == ToBits(back, r);
    FieldOfToBits(s, p + 1 + c, back, r);
  }

  lemma StepLitAt(s: seq<bool>, p: nat, b: Block, vb: seq<bool>, k: nat, w: nat, hist: seq<seq<bool>>)
    requires b.Lit? && k + b.len <= |vb| && b.len < Pow2(SizeBits(w))
    requires HoldsAt(s, p, EncodeBlock(b, vb, k, w))
    ensures Step(s, p, vb[..k], w, hist) == Some((p + |EncodeBlock(b, vb, k, w)|, vb[..k + b.len]))
  {
    LitFields(s, p, b.len, SizeBits(w), Padded(vb, k, b.len));
    PrefixExtend(vb, k, b.len);
  }

  lemma StepRefAt(s: seq<bool>, p: nat, b: Block, vb: seq<bool>, k: nat, w: nat, hist: seq<seq<bool>>)
    requires b.Ref? && k + b.len <= |vb| && b.len < Pow2(SizeBits(w)) && b.back < Pow2(RefBits(w)) && b.back < |hist|
    requires Padded(hist[|hist| - 1 - b.back], k, b.len) == Padded(vb, k, b.len)
    requires HoldsAt(s, p, EncodeBlock(b, vb, k, w))
    ensures Step(s, p, vb[..k], w, hist) == Some((p + |EncodeBlock(b, vb, k, w)|, vb[..k + b.len]))
  {
    RefFields(s, p, b.len, SizeBits(w), b.back, RefBits(w));
    PrefixExtend(vb, k, b.len);
  }

  /** One encoded block, read back, extends the decoded prefix of the line by its length. */
  lemma StepEncoded(s: seq<bool>, p: nat, b: Block, vb: seq<bool>, k: nat, w: nat, hist: seq<seq<bool>>)
    requires |vb| == w && k + b.len <= w && BlockOk(b, vb, k, w, hist)
    requires HoldsAt(s, p, EncodeBlock(b, vb, k, w))
    ensures Step(s, p, vb[..k], w, hist) == Some((p + |EncodeBlock(b, vb, k, w)|, vb[..k + b.len]))
  {
    if b.Lit? {
      StepLitAt(s, p, b, vb, k, w, hist);
    } else {
      SameBitsPadded(vb, hist[|hist| - 1 - b.back], k, b.len);
      StepRefAt(s, p, b, vb, k, w, hist);
    }
  }

  /** One step of the decoder from bit p leads to bit q with `got'` known. */
  ghost predicate StepsTo(bits: seq<bool>, p: nat, got: seq<bool>, w: nat, hist: seq<seq<bool>>, q: nat, got': seq<bool>)
  {
    Step(bits, p, got, w, hist) == Some((q, got'))
  }

  lemma DecodeBlocksChain(bits: seq<bool>, p: nat, got: seq<bool>, w: nat, hist: seq<seq<bool>>, q: nat, got': seq<bool>, d: Decoded)
    requires |got| < w && StepsTo(bits, p, got, w, hist, q, got') && q <= |bits|
    requires DecodeBlocks(bits, q, got', w, hist) == Some(d)
    ensures DecodeBlocks(bits, p, got, w, hist) == Some(d)
  {
  }

  lemma {:induction false} TotalAppend(a: seq<Block>, b: seq<Block>)
    ensures Total(a + b) == Total(a) + Total(b)
    decreases |a|
  {
    if a == [] {
      assert a + b == b;
    } else {
      assert (a + b)[1..] == a[1..] + b;
      TotalAppend(a[1..], b);
    }
  }

  lemma {:induction false} ValidSuffix(a: seq<Block>, b: seq<Block>, vb: seq<bool>, k: nat, end: nat, w: nat, hist: seq<seq<bool>>)
    requires ValidBlocks(a + b, vb, k, end, w, hist)
    ensures ValidBlocks(b, vb, k + Total(a), end, w, hist)
    decreases |a|
  {
    if a == [] {
      assert a + b == b;
    } else {
      assert (a + b)[1..] == a[1..] + b;
      ValidSuffix(a[1..], b, vb, k + a[0].len, end, w, hist);
    }
  }

  /** The bit position where block i starts, when the blocks are encoded from bit p. */
  function BlockStart(blocks: seq<Block>, vb: seq<bool>, k: nat, w: nat, p: nat, i: nat): nat
    requires i <= |blocks|
  {
    p + |Encode(blocks[..i], vb, k, w)|
  }

  /** How many bits of the line are known before block i. */
  function Known(blocks: seq<Block>, k: nat, i: nat): nat
    requires i <= |blocks|
  {
    k + Total(blocks[..i])
  }

  /** Block i of valid blocks stands where it may. */
  lemma BlockOkAt(blocks: seq<Block>, vb: seq<bool>, k: nat, w: nat, hist: seq<seq<bool>>, i: nat)
    requires ValidBlocks(blocks, vb, k, w, w, hist) && i < |blocks|
    ensures BlockOk(blocks[i], vb, Known(blocks, k, i), w, hist) && Known(blocks, k, i) + blocks[i].len <= w
  {
    var pre, post := blocks[..i], blocks[i..];
    assert blocks == pre + post;
    ValidSuffix(pre, post, vb, k, w, w, hist);
    assert post[0] == blocks[i];
  }

  lemma KnownNext(blocks: seq<Block>, k: nat, i: nat)
    requires i < |blocks|
    ensures Known(blocks, k, i + 1) == Known(blocks, k, i) + blocks[i].len
  {
    assert blocks[..i + 1] == blocks[..i] + [blocks[i]];
    TotalAppend(blocks[..i], [blocks[i]]);
    assert [blocks[i]][1..] == [];
  }

  lemma KnownAll(blocks: seq<Block>, vb: seq<bool>, k: nat, w: nat, hist: seq<seq<bool>>)
    requires ValidBlocks(blocks, vb, k, w, w, hist)
    ensures Known(blocks, k, |blocks|) == w
  {
    assert blocks[..|blocks|] == blocks;
    ValidTotal(blocks, vb, k, w, w, hist);
  }

  lemma SliceOfPrefix(e: seq<bool>, x: seq<bool>, y: seq<bool>)
    requires |x + y| <= |e| && e[..|x + y|] == x + y
    ensures e[|x|..|x| + |y|] == y
  {
    assert e[|x|..|x| + |y|] == (x + y)[|x|..];
  }

  /** e occurs in s at position p (stated bit by bit, so that it unfolds only on demand). */
  ghost predicate Occurs(s: seq<bool>, p: nat, e: seq<bool>)
    decreases |e|
  {
    p + |e| <= |s| && (e == [] || (s[p] == e[0] && Occurs(s, p + 1, e[1..])))
  }

  lemma {:induction false} OccursIsSlice(s: seq<bool>, p: nat, e: seq<bool>)
    ensures Occurs(s, p, e) <==> p + |e| <= |s| && s[p..p + |e|] == e
    decreases |e|
  {
    if e != [] {
      OccursIsSlice(s, p + 1, e[1..]);
      if Occurs(s, p, e) {
        assert s[p..p + |e|] == [s[p]] + s[p + 1..p + |e|];
        assert e == [e[0]] + e[1..];
      }
      if p + |e| <= |s| && s[p..p + |e|] == e {
        assert s[p] == s[p..p + |e|][0];
        assert s[p + 1..p + |e|] == s[p..p + |e|][1..];
      }
    }
  }

  /** A stretch of e that equals y occurs where that stretch sits. */
  lemma OccursPart(s: seq<bool>, p: nat, e: seq<bool>, q: nat, y: seq<bool>)
    requires Occurs(s, p, e) && q + |y| <= |e| && e[q..q + |y|] == y
    ensures Occurs(s, p + q, y)
  {
    OccursIsSlice(s, p, e);
    SliceInside(s, e, p, q, q + |y|);
    OccursIsSlice(s, p + q, y);
  }

  /** Chaining a + b is chaining a, then b from where a ends. */
  ghost predicate ChainSplits(f: (Block, nat) -> seq<bool>, a: seq<Block>, b: seq<Block>, k: nat)
  {
    Chain(f, a + b, k) == Chain(f, a, k) + Chain(f, b, k + Total(a))
  }

  lemma {:induction false} ChainAppend(f: (Block, nat) -> seq<bool>, a: seq<Block>, b: seq<Block>, k: nat)
    ensures ChainSplits(f, a, b, k)
    decreases |a|
  {
    if a == [] {
      assert a + b == b;
      EmptyConcat(Chain(f, b, k));
    } else {
      ChainAppend(f, a[1..], b, k + a[0].len);
      assert (a + b)[0] == a[0] && (a + b)[1..] == a[1..] + b;
      ConcatAssoc(f(a[0], k), Chain(f, a[1..], k + a[0].len), Chain(f, b, k + Total(a)));
    }
  }

  lemma ChainSnoc(f: (Block, nat) -> seq<bool>, a: seq<Block>, x: Block, k: nat)
    ensures Chain(f, a + [x], k) == Chain(f, a, k) + f(x, k + Total(a))
  {
    ChainAppend(f, a, [x], k);
    ChainSingle(f, x, k + Total(a));
  }

  lemma ChainSingle(f: (Block, nat) -> seq<bool>, x: Block, k: nat)
    ensures Chain(f, [x], k) == f(x, k)
  {
    assert [x][1..] == [];
    EmptyConcat(f(x, k));
  }

  /** The chain of the first i + 1 blocks extends that of the first i by block i. */
  lemma ChainNext(f: (Block, nat) -> seq<bool>, blocks: seq<Block>, k: nat, i: nat)
    requires i < |blocks|
    ensures Chain(f, blocks[..i + 1], k) == Chain(f, blocks[..i], k) + f(blocks[i], Known(blocks, k, i))
  {
    assert blocks[..i + 1] == blocks[..i] + [blocks[i]];
    ChainSnoc(f, blocks[..i], blocks[i], k);
  }

  /** The chain of the first j blocks is a prefix of the chain of all of them. */
  lemma ChainPrefix(f: (Block, nat) -> seq<bool>, blocks: seq<Block>, k: nat, j: nat)
    requires j <= |blocks|
    ensures |Chain(f, blocks[..j], k)| <= |Chain(f, blocks, k)|
    ensures Chain(f, blocks, k)[..|Chain(f, blocks[..j], k)|] == Chain(f, blocks[..j], k)
  {
    assert blocks == blocks[..j] + blocks[j..];
    ChainAppend(f, blocks[..j], blocks[j..], k);
  }

  /** Block i's bits sit in the chain of all blocks where block i starts. */
  lemma ChainBlockAt(f: (Block, nat) -> seq<bool>, blocks: seq<Block>, k: nat, i: nat)
    requires i < |blocks|
    ensures |Chain(f, blocks[..i], k)| + |f(blocks[i], Known(blocks, k, i))| == |Chain(f, blocks[..i + 1], k)|
    ensures |Chain(f, blocks[..i + 1], k)| <= |Chain(f, blocks, k)|
    ensures Chain(f, blocks, k)[|Chain(f, blocks[..i], k)|..|Chain(f, blocks[..i + 1], k)|] == f(blocks[i], Known(blocks, k, i))
  {
    var x, y := Chain(f, blocks[..i], k), f(blocks[i], Known(blocks, k, i));
    ChainNext(f, blocks, k, i);
    ChainPrefix(f, blocks, k, i + 1);
    SliceOfPrefix(Chain(f, blocks, k), x, y);
  }

  /** Block i of an encoding found at p is found where the block starts. */
  lemma OccursBlock(s: seq<bool>, p: nat, blocks: seq<Block>, vb: seq<bool>, k: nat, w: nat, i: nat)
    requires Occurs(s, p, Encode(blocks, vb, k, w)) && i < |blocks|
    ensures Occurs(s, BlockStart(blocks, vb, k, w, p, i), EncodeBlock(blocks[i], vb, Known(blocks, k, i), w))
    ensures BlockStart(blocks, vb, k, w, p, i + 1) == BlockStart(blocks, vb, k, w, p, i) + |EncodeBlock(blocks[i], vb, Known(blocks, k, i), w)|
  {
    var x, y := Encode(blocks[..i], vb, k, w), EncodeBlock(blocks[i], vb, Known(blocks, k, i), w);
    ChainBlockAt(BlockEncoder(vb, w), blocks, k, i);
    OccursPart(s, p, Encode(blocks, vb, k, w), |x|, y);
  }

  lemma StepEncodedAt(s: seq<bool>, p: nat, b: Block, vb: seq<bool>, k: nat, w: nat, hist: seq<seq<bool>>)
    requires |vb| == w && k + b.len <= w && BlockOk(b, vb, k, w, hist)
    requires Occurs(s, p, EncodeBlock(b, vb, k, w))
    ensures p + |EncodeBlock(b, vb, k, w)| <= |s|
    ensures StepsTo(s, p, vb[..k], w, hist, p + |EncodeBlock(b, vb, k, w)|, vb[..k + b.len])
  {
    OccursIsSlice(s, p, EncodeBlock(b, vb, k, w));
    StepEncoded(s, p, b, vb, k, w, hist);
  }

  /** Block i of the encoding, found in the bits, reads back as one step of the decoder. */
  lemma StepAt(s: seq<bool>, p: nat, blocks: seq<Block>, vb: seq<bool>, k: nat, w: nat, hist: seq<seq<bool>>, i: nat)
    requires |vb| == w && k <= w && ValidBlocks(blocks, vb, k, w, w, hist) && i < |blocks|
    requires Occurs(s, p, Encode(blocks, vb, k, w))
    ensures Known(blocks, k, i) < Known(blocks, k, i + 1) <= w
    ensures BlockStart(blocks, vb, k, w, p, i + 1) <= |s|
    ensures StepsTo(s, BlockStart(blocks, vb, k, w, p, i), vb[..Known(blocks, k, i)], w, hist,
                    BlockStart(blocks, vb, k, w, p, i + 1), vb[..Known(blocks, k, i + 1)])
  {
    var a, a' := BlockStart(blocks, vb, k, w, p, i), BlockStart(blocks, vb, k, w, p, i + 1);
    var n, n' := Known(blocks, k, i), Known(blocks, k, i + 1);
    var b := blocks[i];
    BlockOkAt(blocks, vb, k, w, hist, i);
    KnownNext(blocks, k, i);
    assert n' == n + b.len;
    OccursBlock(s, p, blocks, vb, k, w, i);
    assert a' == a + |EncodeBlock(b, vb, n, w)|;
    StepEncodedAt(s, a, b, vb, n, w, hist);
    assert StepsTo(s, a, vb[..n], w, hist, a + |EncodeBlock(b, vb, n, w)|, vb[..n + b.len]);
  }

  /** Decoding from block i on reads the rest of the line. */
  lemma {:induction false} DecodeFrom(s: seq<bool>, p: nat, blocks: seq<Block>, vb: seq<bool>, k: nat, w: nat, hist: seq<seq<bool>>, i: nat)
    requires |vb| == w && k <= w && ValidBlocks(blocks, vb, k, w, w, hist) && i <= |blocks|
    requires Occurs(s, p, Encode(blocks, vb, k, w))
    requires Known(blocks, k, i) <= w
    ensures DecodeBlocks(s, BlockStart(blocks, vb, k, w, p, i), vb[..Known(blocks, k, i)], w, hist)
         == Some(Decoded(vb, p + |Encode(blocks, vb, k, w)|))
    decreases |blocks| - i
  {
    if i == |blocks| {
      assert blocks[..i] == blocks;
      KnownAll(blocks, vb, k, w, hist);
      assert vb[..w] == vb;
    } else {
      StepAt(s, p, blocks, vb, k, w, hist, i);
      DecodeFrom(s, p, blocks, vb, k, w, hist, i + 1);
      var a, b := BlockStart(blocks, vb, k, w, p, i), BlockStart(blocks, vb, k, w, p, i + 1);
      var g, g' := vb[..Known(blocks, k, i)], vb[..Known(blocks, k, i + 1)];
      assert |g| < w;
      assert StepsTo(s, a, g, w, hist, b, g');
      assert b <= |s|;
      assert DecodeBlocks(s, b, g', w, hist) == Some(Decoded(vb, p + |Encode(blocks, vb, k, w)|));
      DecodeBlocksChain(s, a, g, w, hist, b, g', Decoded(vb, p + |Encode(blocks, vb, k, w)|));
    }
  }

  /** Valid blocks, found in the bits at p, decode to the rest of the line. */
  lemma DecodeEncoded(s: seq<bool>, p: nat, blocks: seq<Block>, vb: seq<bool>, k: nat, w: nat, hist: seq<seq<bool>>)
    requires |vb| == w && k <= w && ValidBlocks(blocks, vb, k, w, w, hist)
    requires p + |Encode(blocks, vb, k, w)| <= |s| && s[p..p + |Encode(blocks, vb, k, w)|] == Encode(blocks, vb, k, w)
    ensures DecodeBlocks(s, p, vb[..k], w, hist) == Some(Decoded(vb, p + |Encode(blocks, vb, k, w)|))
  {
    assert BlockStart(blocks, vb, k, w, p, 0) == p && Known(blocks, k, 0) == k by {
      assert blocks[..0] == [];
    }
    OccursIsSlice(s, p, Encode(blocks, vb, k, w));
    DecodeFrom(s, p, blocks, vb, k, w, hist, 0);
  }

  lemma AfterFlag(flag: bool, e: seq<bool>)
    ensures 1 + |e| <= |[flag] + e| && ([flag] + e)[1..1 + |e|] == e
  {
  }

  lemma FlaggedLine(line: seq<bool>, w: nat, hist: seq<seq<bool>>, d: Decoded)
    requires |line| > 0 && line[0] && DecodeBlocks(line, 1, [], w, hist) == Some(d)
    ensures DecodeLine(line, 0, w, hist) == Some(d)
  {
  }

  /** A compressed line: flag 1 followed by the blocks. */
  lemma DecodeCompressed(blocks: seq<Block>, vb: seq<bool>, w: nat, hist: seq<seq<bool>>)
    requires |vb| == w && ValidBlocks(blocks, vb, 0, w, w, hist)
    ensures DecodeLine([true] + Encode(blocks, vb, 0, w), 0, w, hist)
         == Some(Decoded(vb, 1 + |Encode(blocks, vb, 0, w)|))
  {
    var e := Encode(blocks, vb, 0, w);
    var line := [true] + e;
    AfterFlag(true, e);
    assert vb[..0] == [];
    DecodeEncoded(line, 1, blocks, vb, 0, w, hist);
    FlaggedLine(line, w, hist, Decoded(vb, 1 + |e|));
  }

  /** The default line: flag 0 followed by the line verbatim. */
  lemma DecodeVerbatim(vb: seq<bool>, w: nat, hist: seq<seq<bool>>)
    requires |vb| == w
    ensures DecodeLine([false] + vb, 0, w, hist) == Some(Decoded(vb, 1 + w))
  {
    assert Padded([false] + vb, 1, w) == vb;
  }

  // ---------------------------------------------------------------------
  // The encoder's search

  /** The line decodes, from its own first bit, to vb and ends where it ends. */
  ghost predicate Decodes(line: seq<bool>, vb: seq<bool>, w: nat, hist: seq<seq<bool>>)
  {
    DecodeLine(line, 0, w, hist) == Some(Decoded(vb, |line|))
  }

  /**
   * The blocks a match adds to a candidate: the unmatched bits since src as
   * a literal, if there are any, then the reference to `ps` bits of the
   * line i + 1 lines back.
   */
  function Middle(src: nat, offset: nat, ps: nat, i: nat): seq<Block>
  {
    (if offset > src then [Lit(offset - src)] else []) + [Ref(ps, i)]
  }

  lemma ValidMiddle(pb: seq<Block>, vb: seq<bool>, src: nat, offset: nat, ps: nat, i: nat, w: nat, hist: seq<seq<bool>>)
    requires ValidBlocks(pb, vb, 0, src, w, hist) && src <= offset
    requires offset - src < Pow2(SizeBits(w)) && 0 < ps < Pow2(SizeBits(w))
    requires i < Pow2(RefBits(w)) && Matches(vb, hist, offset, ps, i)
    ensures ValidBlocks(pb + Middle(src, offset, ps, i), vb, 0, offset + ps, w, hist)
  {
    var m := Middle(src, offset, ps, i);
    if offset > src {
      assert m[1..] == [Ref(ps, i)];
      assert ValidBlocks(m[1..][1..], vb, offset + ps, offset + ps, w, hist);
    } else {
      assert ValidBlocks(m[1..], vb, offset + ps, offset + ps, w, hist);
    }
    ValidAppend(pb, m, vb, 0, src, offset + ps, w, hist);
  }

  /** The closing literal of a candidate that stops matching at `src`. */
  lemma ValidTail(pb: seq<Block>, vb: seq<bool>, src: nat, w: nat, hist: seq<seq<bool>>)
    requires ValidBlocks(pb, vb, 0, src, w, hist) && 0 < w - src < Pow2(SizeBits(w)) && src < w
    ensures ValidBlocks(pb + [Lit(w - src)], vb, 0, w, w, hist)
  {
    assert ValidBlocks([Lit(w - src)][1..], vb, w, w, w, hist);
    ValidAppend(pb, [Lit(w - src)], vb, 0, src, w, w, hist);
  }

  /** The line a match of the whole of vb with the line i + 1 lines back gives. */
  function FullMatchLine(w: nat, i: nat): seq<bool>
  {
    [true] + EncodeBlock(Ref(w, i), [], 0, w)
  }

  /** The line i + 1 lines back holds the ps bits of vb at `offset`. */
  ghost predicate Matches(vb: seq<bool>, hist: seq<seq<bool>>, offset: nat, ps: nat, i: nat)
  {
    i < |hist| && SameBits(vb, hist[|hist| - 1 - i], offset, ps)
  }

  /**
   * The innermost loop of zPush's search: the first of the last
   * maxPrevious lines, newest first, that holds the ps bits of vb at
   * `offset`.
   */
  method FindLine(vb: seq<bool>, hist: seq<seq<bool>>, offset: nat, ps: nat, maxPrevious: nat) returns (found: bool, i: nat)
    requires maxPrevious <= |hist|
    ensures found ==> i < maxPrevious && Matches(vb, hist, offset, ps, i)
    ensures forall j :: 0 <= j < (if found then i else maxPrevious) ==> !Matches(vb, hist, offset, ps, j)
  {
    i := 0;
    while i < maxPrevious
      invariant i <= maxPrevious
      invariant forall j :: 0 <= j < i ==> !Matches(vb, hist, offset, ps, j)
    {
      if SameBits(vb, hist[|hist| - 1 - i], offset, ps) {
        return true, i;
      }
      i := i + 1;
    }
    found := false;
  }

  /**
   * The pattern loop of zPush's search: the longest pattern of more than
   * minFragment and at most `start` bits at `offset` that one of the last
   * maxPrevious lines holds, and the first such line.
   */
  method FindPattern(vb: seq<bool>, hist: seq<seq<bool>>, offset: nat, start: int, minFragment: nat, maxPrevious: nat)
    returns (found: bool, ps: nat, i: nat)
    requires maxPrevious <= |hist|
    ensures found ==> minFragment < ps <= start && i < maxPrevious && Matches(vb, hist, offset, ps, i)
    ensures found ==> forall j :: 0 <= j < i ==> !Matches(vb, hist, offset, ps, j)
    ensures forall q: nat, j :: (if found then ps else minFragment) < q <= start && 0 <= j < maxPrevious
              ==> !Matches(vb, hist, offset, q, j)
  {
    var patternSize := start;
    while patternSize > minFragment
      invariant patternSize <= start
      invariant forall q: nat, j :: patternSize < q <= start && 0 <= j < maxPrevious ==> !Matches(vb, hist, offset, q, j)
      decreases patternSize
    {
      found, i := FindLine(vb, hist, offset, patternSize, maxPrevious);
      if found {
        return true, patternSize, i;
      }
      patternSize := patternSize - 1;
    }
    found, ps, i := false, 0, 0;
  }

  /**
   * One of the last 2^RefBits(w) lines, the ones a reference can name,
   * holds the first bits of vb: all w of them, or as many as a length
   * field can count when that is fewer.
   */
  ghost predicate Repeated(vb: seq<bool>, hist: seq<seq<bool>>, w: nat)
  {
    var n := Min(w, Pow2(SizeBits(w)) - 1);
    exists i :: 0 <= i < Min(|hist|, Pow2(RefBits(w))) && Matches(vb, hist, 0, n, i)
  }

  /** A value equal to the newest line is repeated. */
  lemma NewestRepeated(vb: seq<bool>, hist: seq<seq<bool>>, w: nat)
    requires hist != [] && hist[|hist| - 1] == vb
    ensures Repeated(vb, hist, w)
  {
    var n := Min(w, Pow2(SizeBits(w)) - 1);
    SameBitsPadded(vb, vb, 0, n);
    assert Matches(vb, hist, 0, n, 0);
  }

  /** At a compressed width, the longest pattern a length field can count is longer than minFragment. */
  lemma CompressedFragment(w: nat)
    requires w > 0 && ShouldBeCompressed(w)
    ensures MinFragment(w) < Min(w, Pow2(SizeBits(w)) - 1)
  {
  }

  /** The lengths of the candidates a match at offset 0 closes: the reference alone, or with a literal of the rest. */
  lemma FirstCandidateLength(ps: nat, i: nat, vb: seq<bool>, w: nat)
    requires ps <= w
    ensures |Encode([Ref(ps, i)], vb, 0, w)| == 1 + SizeBits(w) + RefBits(w)
    ensures |Encode([Ref(ps, i), Lit(w - ps)], vb, 0, w)| == 2 + 2 * SizeBits(w) + RefBits(w) + (w - ps)
  {
    var f := BlockEncoder(vb, w);
    ChainSingle(f, Ref(ps, i), 0);
    assert [Ref(ps, i), Lit(w - ps)] == [Ref(ps, i)] + [Lit(w - ps)];
    ChainSnoc(f, [Ref(ps, i)], Lit(w - ps), 0);
    assert Total([Ref(ps, i)]) == ps;
  }

  /** The first candidate starts with a reference and takes fewer bits than the w it stands for. */
  predicate ShortFirst(candidates: seq<seq<Block>>, vb: seq<bool>, w: nat)
  {
    candidates != [] && candidates[0] != [] && candidates[0][0].Ref? && |Encode(candidates[0], vb, 0, w)| < w
  }

  /** The pattern loop at offset 0 finds a match when the line `rep` back holds the longest pattern it tries. */
  lemma PatternFound(vb: seq<bool>, hist: seq<seq<bool>>, w: nat, offset: nat, start: int, minFragment: nat,
                     maxPrevious: nat, rep: int, found: bool, ps: nat)
    requires offset == 0 && start == Min(w - offset, Pow2(SizeBits(w)) - 1) && minFragment < start
    requires 0 <= rep < maxPrevious && Matches(vb, hist, 0, Min(w, Pow2(SizeBits(w)) - 1), rep)
    requires forall q: nat, j :: (if found then ps else minFragment) < q <= start && 0 <= j < maxPrevious
               ==> !Matches(vb, hist, offset, q, j)
    ensures found
  {
    assert Matches(vb, hist, offset, start, rep);
  }

  /** A match longer than minFragment at offset 0 closes a first candidate that is short. */
  lemma FirstCandidate(partial: seq<Block>, middle: seq<Block>, ps: nat, i: nat, vb: seq<bool>, w: nat)
    requires partial == [] && middle == Middle(0, 0, ps, i) && MinFragment(w) < ps <= w
    ensures ps < w ==> ShortFirst([partial + middle + [Lit(w - ps)]], vb, w)
    ensures ps == w ==> ShortFirst([partial + middle], vb, w)
  {
    FirstCandidateLength(ps, i, vb, w);
    assert partial + middle == [Ref(ps, i)];
    assert partial + middle + [Lit(w - ps)] == [Ref(ps, i), Lit(w - ps)];
  }

  /** Every candidate is valid for vb. */
  ghost predicate AllValid(candidates: seq<seq<Block>>, vb: seq<bool>, w: nat, hist: seq<seq<bool>>)
  {
    forall j :: 0 <= j < |candidates| ==> ValidBlocks(candidates[j], vb, 0, w, w, hist)
  }

  lemma AllValidSnoc(candidates: seq<seq<Block>>, c: seq<Block>, vb: seq<bool>, w: nat, hist: seq<seq<bool>>)
    requires AllValid(candidates, vb, w, hist) && ValidBlocks(c, vb, 0, w, w, hist)
    ensures AllValid(candidates + [c], vb, w, hist)
  {
    assert forall j :: 0 <= j < |candidates| ==> (candidates + [c])[j] == candidates[j];
  }

  /** Appending candidates keeps the first one. */
  lemma ShortFirstKept(candidates: seq<seq<Block>>, c: seq<Block>, vb: seq<bool>, w: nat)
    requires ShortFirst(candidates, vb, w)
    ensures ShortFirst(candidates + [c], vb, w)
  {
    assert (candidates + [c])[0] == candidates[0];
  }

  /**
   * The search zPush makes for a short encoding of the w-bit line vb, given
   * the contents hist of the zone's lines so far, newest last.  It tries
   * each offset from the left and, at each, the longest pattern first; a
   * pattern matches when some of the last 2^RefBits(w) lines holds the same
   * bits at the same position.  A match that leaves bits over closes a
   * candidate with a literal of the rest and becomes the prefix of later
   * candidates, and the search goes on one bit past it; a match that
   * reaches the end of the line closes the last candidate.  The shortest
   * candidate wins, ties going to the plain line, flag 0 followed by vb.
   *
   * As written, the source starts each pattern at the full remaining
   * width, whose length may not fit in SizeBits(w) bits; `capped` starts it
   * at the largest length that fits instead.
   */
  method SearchLine(vb: seq<bool>, hist: seq<seq<bool>>, w: nat, capped: bool) returns (line: seq<bool>)
    requires |vb| == w && w > 0
    ensures line == [false] + vb || (0 < |line| < 1 + w && line[0])
    ensures capped || w < Pow2(SizeBits(w)) ==> Decodes(line, vb, w, hist)
    ensures !capped && w > MinFragment(w) && Matches(vb, hist, 0, w, 0) ==> line == FullMatchLine(w, 0)
    ensures capped && ShouldBeCompressed(w) && Repeated(vb, hist, w) ==> line[0] && |line| < 1 + w
  {
    var candidates := Candidates(vb, hist, w, capped);
    var k;
    var lines := CandidateLines(candidates, vb, w);
    line, k := Shortest([false] + vb, lines);
    if k < 0 {
      DecodeVerbatim(vb, w, hist);
    } else if capped || w < Pow2(SizeBits(w)) {
      DecodeCompressed(candidates[k], vb, w, hist);
    }
    if !capped && w > MinFragment(w) && Matches(vb, hist, 0, w, 0) {
      FullMatchEncoding(vb, w);
      assert lines[0] == FullMatchLine(w, 0);
      assert |line| <= |lines[0]| < 1 + w;
      assert k == 0;
    }
    if capped && ShouldBeCompressed(w) && Repeated(vb, hist, w) {
      assert |lines[0]| < 1 + w;
      assert k >= 0;
    }
  }

  /**
   * The loops of zPush's search: the candidates, each as its blocks, in
   * the order they are found.  With `capped`, or when every length up to
   * w fits in SizeBits(w) bits, each of them is valid for vb.
   */
  method Candidates(vb: seq<bool>, hist: seq<seq<bool>>, w: nat, capped: bool) returns (candidates: seq<seq<Block>>)
    requires |vb| == w && w > 0
    ensures capped || w < Pow2(SizeBits(w)) ==>
              forall j :: 0 <= j < |candidates| ==> ValidBlocks(candidates[j], vb, 0, w, w, hist)
    ensures !capped && w > MinFragment(w) && Matches(vb, hist, 0, w, 0) ==> candidates == [[Ref(w, 0)]]
    ensures capped && ShouldBeCompressed(w) && Repeated(vb, hist, w) ==> ShortFirst(candidates, vb, w)
  {
    ghost var full := !capped && w > MinFragment(w) && Matches(vb, hist, 0, w, 0);
    // The line holding the repeated prefix, or -1.
    ghost var rep: int := -1;
    if capped && ShouldBeCompressed(w) && Repeated(vb, hist, w) {
      CompressedFragment(w);
      rep :| 0 <= rep < Min(|hist|, Pow2(RefBits(w))) && Matches(vb, hist, 0, Min(w, Pow2(SizeBits(w)) - 1), rep);
    }
    // Each candidate is kept as its blocks; its bits are flag 1 and their encoding.
    candidates := [];
    var partial: seq<Block> := [];
    var src: nat := 0;
    var offset: nat := 0;
    while offset < w - MinFragment(w)
      invariant Searching(vb, hist, w, capped, rep, candidates, partial, src, offset)
      invariant full ==> offset == 0
      decreases w - offset
    {
      var done;
      done, candidates, partial, src, offset := SearchAt(vb, hist, w, capped, rep, candidates, partial, src, offset);
      if done {
        break;
      }
    }
  }

  /**
   * The search so far, before `offset`: the blocks of the current prefix
   * cover vb[..src] and every candidate is valid when lengths fit, there
   * is no candidate before the first offset, and once past it a repeated
   * prefix (the line `rep` back, when rep >= 0) has given a short first
   * candidate.
   */
  ghost predicate Searching(vb: seq<bool>, hist: seq<seq<bool>>, w: nat, capped: bool, rep: int,
                            candidates: seq<seq<Block>>, partial: seq<Block>, src: nat, offset: nat)
  {
    src <= offset <= w
    && ((capped || w < Pow2(SizeBits(w))) ==> ValidBlocks(partial, vb, 0, src, w, hist) && AllValid(candidates, vb, w, hist))
    && (offset == 0 ==> src == 0 && partial == [] && candidates == [])
    && (rep >= 0 && offset > 0 ==> ShortFirst(candidates, vb, w))
  }

  /**
   * One offset of the search: the longest pattern at `offset` is looked
   * for; a match closes a candidate and, if it leaves bits over, becomes
   * the prefix of later ones and the search goes on one bit past it;
   * `done` when a match reaches the end of the line.
   */
  method SearchAt(vb: seq<bool>, hist: seq<seq<bool>>, w: nat, capped: bool, ghost rep: int,
                  candidates: seq<seq<Block>>, partial: seq<Block>, src: nat, offset: nat)
    returns (done: bool, candidates': seq<seq<Block>>, partial': seq<Block>, src': nat, offset': nat)
    requires |vb| == w && w > 0 && offset < w - MinFragment(w)
    requires Searching(vb, hist, w, capped, rep, candidates, partial, src, offset)
    requires rep >= 0 ==> capped && rep < Min(|hist|, Pow2(RefBits(w))) && MinFragment(w) < Min(w, Pow2(SizeBits(w)) - 1)
                          && Matches(vb, hist, 0, Min(w, Pow2(SizeBits(w)) - 1), rep)
    ensures offset < offset' && Searching(vb, hist, w, capped, rep, candidates', partial', src', offset')
    ensures !capped && offset == 0 && w > MinFragment(w) && Matches(vb, hist, 0, w, 0) ==> done && candidates' == [[Ref(w, 0)]]
  {
    var c, r := SizeBits(w), RefBits(w);
    var minFragment := MinFragment(w);
    var maxPrevious := Min(|hist|, Pow2(r));
    ghost var good := capped || w < Pow2(c);
    var start := if capped then Min(w - offset, Pow2(c) - 1) else w - offset;
    var found, patternSize, i := FindPattern(vb, hist, offset, start, minFragment, maxPrevious);
    if !capped && offset == 0 && w > minFragment && Matches(vb, hist, 0, w, 0) {
      assert 0 < maxPrevious;
      assert found && patternSize == w && i == 0;
    }
    if rep >= 0 && offset == 0 {
      // The repeated prefix is a match no longer than start, so the pattern loop finds one.
      PatternFound(vb, hist, w, offset, start, minFragment, maxPrevious, rep, found, patternSize);
      FirstCandidate(partial, Middle(src, offset, patternSize, i), patternSize, i, vb, w);
    }
    done, candidates', partial', src', offset' := false, candidates, partial, src, offset + 1;
    if found {
      var middle := Middle(src, offset, patternSize, i);
      var next := offset + patternSize;
      if good {
        ValidMiddle(partial, vb, src, offset, patternSize, i, w, hist);
      }
      if next < w {
        if good {
          ValidTail(partial + middle, vb, next, w, hist);
          AllValidSnoc(candidates, partial + middle + [Lit(w - next)], vb, w, hist);
        }
        if rep >= 0 && offset > 0 {
          ShortFirstKept(candidates, partial + middle + [Lit(w - next)], vb, w);
        }
        candidates' := candidates + [partial + middle + [Lit(w - next)]];
        partial', src', offset' := partial + middle, next, next + 1;
      } else {
        if good {
          AllValidSnoc(candidates, partial + middle, vb, w, hist);
        }
        if rep >= 0 && offset > 0 {
          ShortFirstKept(candidates, partial + middle, vb, w);
        }
        candidates' := candidates + [partial + middle];
        assert !capped && offset == 0 && w > minFragment && Matches(vb, hist, 0, w, 0) ==>
          middle == [Ref(w, 0)] && candidates' == [[Ref(w, 0)]];
        done, offset' := true, w;
      }
    }
  }

  /** The bits of each candidate: flag 1 followed by the encoding of its blocks. */
  function CandidateLines(candidates: seq<seq<Block>>, vb: seq<bool>, w: nat): (lines: seq<seq<bool>>)
    ensures |lines| == |candidates|
    ensures forall j :: 0 <= j < |candidates| ==> lines[j] == [true] + Encode(candidates[j], vb, 0, w)
  {
    seq(|candidates|, j requires 0 <= j < |candidates| => [true] + Encode(candidates[j], vb, 0, w))
  }

  /**
   * The reduce that ends zPush: the first of the shortest lines, starting
   * from the plain one; k is the index of the winner among `lines`, or -1
   * when the plain line wins.
   */
  method Shortest(plain: seq<bool>, lines: seq<seq<bool>>) returns (line: seq<bool>, k: int)
    ensures -1 <= k < |lines|
    ensures k == -1 ==> line == plain
    ensures k >= 0 ==> line == lines[k] && |line| < |plain|
    ensures forall j :: 0 <= j < |lines| ==> |line| <= |lines[j]|
    ensures forall j :: 0 <= j < k ==> |line| < |lines[j]|
  {
    line, k := plain, -1;
    var j := 0;
    while j < |lines|
      invariant j <= |lines| && -1 <= k < j
      invariant k == -1 ==> line == plain
      invariant k >= 0 ==> line == lines[k] && |line| < |plain|
      invariant forall i :: 0 <= i < j ==> |line| <= |lines[i]|
      invariant forall i :: 0 <= i < k ==> |line| < |lines[i]|
    {
      if !(|line| <= |lines[j]|) {
        line, k := lines[j], j;
      }
      j := j + 1;
    }
  }

  /** The encoding of a single reference to the whole line. */
  lemma FullMatchEncoding(vb: seq<bool>, w: nat)
    ensures [true] + Encode([Ref(w, 0)], vb, 0, w) == FullMatchLine(w, 0)
    ensures w > MinFragment(w) ==> |FullMatchLine(w, 0)| < 1 + w
  {
    ChainSingle(BlockEncoder(vb, w), Ref(w, 0), 0);
  }

  // ---------------------------------------------------------------------
  // The full-line match when w is a power of two

  /** 2^n written in n bits drops its only set bit: all n bits are zero. */
  lemma ToBitsPow2(n: nat)
    ensures ToBits(Pow2(n), n) == ToBits(0, n)
  {
    ToBitsSplit(Pow2(n), 0, n);
    ShrLowUnique(Pow2(n), n, 1, 0);
    ToBitsSplit(0, 0, n);
    ShrLowUnique(0, n, 0, 0);
  }

  /** A run of sub-blocks that still has content to read ends past its start. */
  lemma DecodeBlocksMoves(bits: seq<bool>, p: nat, got: seq<bool>, w: nat, hist: seq<seq<bool>>)
    requires |got| < w && DecodeBlocks(bits, p, got, w, hist).Some?
    ensures DecodeBlocks(bits, p, got, w, hist).value.end > p
  {
  }

  /**
   * When w is a power of two, the line a full-line match gives as written
   * holds the length w in its SizeBits(w)-bit field as zero: read back, it
   * is a zero-length reference, after which the decoder reads on past the
   * line's end, so the line never decodes to a w-bit value by itself.
   */
  lemma FullMatchMisdecodes(w: nat, i: nat, s: seq<bool>, hist: seq<seq<bool>>)
    requires w > 0 && w == Pow2(SizeBits(w)) && i < Pow2(RefBits(w))
    requires FullMatchLine(w, i) <= s
    ensures DecodeLine(s, 0, w, hist).None? || DecodeLine(s, 0, w, hist).value.end > |FullMatchLine(w, i)|
  {
    FullMatchFields(w, i, s);
    if DecodeLine(s, 0, w, hist).Some? {
      var q := 2 + SizeBits(w) + RefBits(w);
      assert Step(s, 1, [], w, hist) == Some((q, []));
      DecodeBlocksMoves(s, q, [], w, hist);
    }
  }

  /** The fields of a full-match line as written, read back. */
  lemma FullMatchFields(w: nat, i: nat, s: seq<bool>)
    requires w > 0 && w == Pow2(SizeBits(w)) && i < Pow2(RefBits(w))
    requires FullMatchLine(w, i) <= s
    ensures Bit(s, 0) && Bit(s, 1)
    ensures Field(s, 2, SizeBits(w)) == 0 && Field(s, 2 + SizeBits(w), RefBits(w)) == i
  {
    var line := FullMatchLine(w, i);
    var e := [true] + ToBits(0, SizeBits(w)) + ToBits(i, RefBits(w));
    ToBitsPow2(SizeBits(w));
    assert line == [true] + e;
    assert s[0] == line[0];
    assert s[1..|line|] == line[1..] == e;
    RefFields(s, 1, 0, SizeBits(w), i, RefBits(w));
  }

  lemma FullMatchUndecodable(w: nat, i: nat, vb: seq<bool>, hist: seq<seq<bool>>)
    requires w > 0 && w == Pow2(SizeBits(w)) && i < Pow2(RefBits(w))
    ensures !Decodes(FullMatchLine(w, i), vb, w, hist)
  {
    FullMatchMisdecodes(w, i, FullMatchLine(w, i), hist);
  }

  /**
   * An instance: with lines of 32 bits, pushing a line equal to the one
   * before it makes the search as written settle on the full-line match,
   * whose line does not decode.
   */
  lemma FullMatchAt32(vb: seq<bool>)
    requires |vb| == 32
    ensures 32 > MinFragment(32) && Matches(vb, [vb], 0, 32, 0)
    ensures !Decodes(FullMatchLine(32, 0), vb, 32, [vb])
  {
    assert Pow2(5) == 32;
    CeilLog2Is(32, 5);
    SameBitsPadded(vb, vb, 0, 32);
    FullMatchUndecodable(32, 0, vb, [vb]);
  }
}
