/**
 * The BitArray class: a byte buffer written and read as a string of bits.
 *
 * An instance holds the buffer (`rawData`), a cursor in bits (`offset`),
 * the furthest position the cursor has been moved to (`maxOffset`) and,
 * for every compressed zone it has been asked about, the lines of that
 * zone decoded so far (`zCache`, keyed by the zone's first bit).
 *
 * Operations that take an optional bit size or offset stand for the
 * source's `-1` defaults with `None`; where the source works on the
 * cursor, the cursor is read and then moved past the bits used.
 */
module BitArrays {
  import opened Bits
  import opened LineFormat
  import opened ZoneCache

  function Max(a: nat, b: nat): (m: nat)
    ensures m >= a && m >= b && (m == a || m == b)
  {
    if a >= b then a else b
  }

  /** The width set() gives a number when none is passed: max(1, ceil(log2(v + 1))). */
  function DefaultWidth(v: nat): (n: nat)
    ensures 1 <= n && v < Pow2(n)
    ensures n > 1 ==> Pow2(n - 1) <= v
  {
    Max(1, CeilLog2(v + 1))
  }

  /** The width set() uses for a number. */
  function NumberWidth(value: nat, bitSize: Option<nat>): nat
  {
    if bitSize.Some? then bitSize.value else DefaultWidth(value)
  }

  /** The bits export(w, p) puts in its result: w bits from p, then zeros up to the byte. */
  function Exported(bits: seq<bool>, p: nat, w: nat): (e: seq<bool>)
    ensures |e| == 8 * ((w + 7) / 8)
  {
    Padded(bits, p, w) + Zeros(8 * ((w + 7) / 8) - w)
  }

  function Or(at: Option<nat>, default: nat): nat
  {
    if at.Some? then at.value else default
  }

  /** A w-bit value set at p is what get reads back at p. */
  lemma SetThenGet(bits: seq<bool>, p: nat, v: nat, w: nat)
    requires v < Pow2(w) && p + w <= |bits|
    ensures ValueOf(Padded(Splice(bits, p, ToBits(v, w)), p, w)) == v
  {
    assert Padded(Splice(bits, p, ToBits(v, w)), p, w) == ToBits(v, w);
    ValueOfToBitsExact(v, w);
  }

  /** A read of bits that a write does not overlap sees what was there before. */
  lemma SetKeepsOthers(bits: seq<bool>, p: nat, t: seq<bool>, q: nat, n: nat)
    requires p + |t| <= |bits| && (q + n <= p || p + |t| <= q)
    ensures Padded(Splice(bits, p, t), q, n) == Padded(bits, q, n)
  {
  }

  /** The first w bits of an export are the bits exported. */
  lemma PaddedExported(bits: seq<bool>, q: nat, m: nat)
    ensures Padded(Exported(bits, q, m), 0, m) == Padded(bits, q, m)
  {
    var e := Exported(bits, q, m);
    assert forall i :: 0 <= i < m ==> e[i] == Padded(bits, q, m)[i];
  }

  /** A bit string written from bit 0 of a zeroed buffer is that string followed by zeros. */
  lemma SpliceIntoZeros(n: nat, t: seq<bool>)
    requires |t| <= n
    ensures Splice(Zeros(n), 0, t) == t + Zeros(n - |t|)
  {
    assert Zeros(n)[|t|..] == Zeros(n - |t|);
  }

  /** A buffer of zeros after an n-bit append of v at its start. */
  lemma HeldBits(size: nat, before: seq<bool>, after: seq<bool>, v: nat, n: nat)
    requires n <= size && before == Zeros(size)
    requires after == if n == 0 then before else Splice(before, 0, ToBits(v, n))
    ensures after == ToBits(v, n) + Zeros(size - n)
  {
    SpliceIntoZeros(size, ToBits(v, n));
    if n == 0 {
      assert ToBits(v, n) == [];
    }
  }

  /** Appending x at the cursor of a buffer that holds prefix and then zeros. */
  lemma AppendRun(prefix: seq<bool>, x: seq<bool>, size: nat, t: seq<bool>, u: seq<bool>)
    requires |prefix| + |x| <= size && t == prefix + Zeros(size - |prefix|)
    requires u == Splice(t, |prefix|, x)
    ensures u == prefix + x + Zeros(size - (|prefix| + |x|))
  {
    assert Zeros(size - |prefix|) == Zeros(|x|) + Zeros(size - (|prefix| + |x|));
    SpliceParts(prefix, Zeros(|x|), Zeros(size - (|prefix| + |x|)), x);
  }

  /** get's read of n bits inside the byte holding bit `at`. */
  lemma FirstByteValue(data: seq<byte>, at: nat, n: nat, b: nat, v: nat)
    requires at % 8 + n <= 8 && b == ByteAt(data, at / 8) && v == Shr(Low(b, 8 - at % 8), 8 - at % 8 - n)
    ensures v == ValueOf(Padded(BitsOf(data), at, n)) && v < Pow2(n)
  {
    ReadFirstByte(data, at, n);
  }

  /** The one-byte branch of export: the w bits read with get, held in a fresh buffer. */
  lemma ExportedWhole(r: BitArray, bits: seq<bool>, p: nat, w: nat, v: nat, size: nat)
    requires v == ValueOf(Padded(bits, p, w)) && size == 8 * r.rawData.Length && r.rawData.Length == (w + 7) / 8
    requires Filled(r, ToBits(v, w), size)
    ensures r.Bits() == Exported(bits, p, w) && r.offset == w
  {
    ToBitsValueOf(Padded(bits, p, w));
  }

  /**
   * The multi-byte branch of export: the first a bits in a fresh buffer,
   * then the next m bits appended after them.
   */
  lemma ExportedChunks(r: BitArray, bits: seq<bool>, p: nat, a: nat, m: nat, w: nat, q: nat, hi: nat, size: nat)
    requires w == a + m && q == p + a && size == 8 * r.rawData.Length && r.rawData.Length == (w + 7) / 8
    requires hi == ValueOf(Padded(bits, p, a))
    requires Filled(r, ToBits(hi, a) + Padded(bits, q, m), size)
    ensures r.Bits() == Exported(bits, p, w) && r.offset == w
  {
    ToBitsValueOf(Padded(bits, p, a));
    PaddedSplit(bits, p, a, m);
  }

  /** concat's buffer: the two parts written one after the other into a zeroed buffer. */
  lemma Concatenated(size: nat, o1: nat, o2: nat, first: seq<bool>, second: seq<bool>, t1: seq<bool>, t2: seq<bool>)
    requires |first| == o1 && |second| == o2 && o1 + o2 <= size
    requires t1 == (if o1 == 0 then Zeros(size) else Splice(Zeros(size), 0, first))
    requires t2 == (if o2 == 0 then t1 else Splice(t1, o1, second))
    ensures t2 == first + second + Zeros(size - (o1 + o2))
  {
    SpliceIntoZeros(size, first);
    assert t1 == first + Zeros(size - o1);
    assert Zeros(size - o1) == Zeros(o2) + Zeros(size - (o1 + o2));
    SpliceParts(first, Zeros(o2), Zeros(size - (o1 + o2)), second);
  }

  /** Two exports of the same width are equal exactly when the bits exported are. */
  lemma ExportedEqual(s: seq<bool>, a: nat, t: seq<bool>, b: nat, n: nat)
    ensures Exported(s, a, n) == Exported(t, b, n) <==> Padded(s, a, n) == Padded(t, b, n)
  {
    if Exported(s, a, n) == Exported(t, b, n) {
      assert Padded(s, a, n) == Exported(s, a, n)[..n];
      assert Padded(t, b, n) == Exported(t, b, n)[..n];
    }
  }

  // ---------------------------------------------------------------------
  // rotate: a block of lines read column by column

  /** Where column b of line l is when lines are bpl bits long: l * bpl + b. */
  function Cell(l: nat, bpl: nat, b: nat): nat
  {
    if l == 0 then b else Cell(l - 1, bpl, b) + bpl
  }

  lemma {:induction false} CellIsProduct(l: nat, bpl: nat, b: nat)
    ensures Cell(l, bpl, b) == l * bpl + b
  {
    if l > 0 {
      CellIsProduct(l - 1, bpl, b);
    }
  }

  /** The first l bits of column b of s read as lines of bpl bits: bits b, bpl + b, 2 * bpl + b, ... */
  function Column(s: seq<bool>, bpl: nat, b: nat, l: nat): (c: seq<bool>)
    ensures |c| == l
  {
    if l == 0 then [] else Column(s, bpl, b, l - 1) + [Bit(s, Cell(l - 1, bpl, b))]
  }

  /** Columns 0 to k - 1 of s, each of its lc lines, one after the other. */
  function Columns(s: seq<bool>, bpl: nat, lc: nat, k: nat): (t: seq<bool>)
    ensures |t| == Cell(k, lc, 0)
  {
    if k == 0 then [] else Columns(s, bpl, lc, k - 1) + Column(s, bpl, k - 1, lc)
  }

  /** What rotate writes: s read as lc lines of bpl bits, written out column after column. */
  function Transposed(s: seq<bool>, bpl: nat, lc: nat): (t: seq<bool>)
    ensures |t| == bpl * lc
  {
    CellIsProduct(bpl, lc, 0);
    Columns(s, bpl, lc, bpl)
  }

  /** A cell of a grid of lc lines of bpl bits lies inside it, read either way. */
  lemma GridIndex(b: nat, l: nat, bpl: nat, lc: nat)
    requires b < bpl && l < lc
    ensures l * bpl + b < bpl * lc && b * lc + l < bpl * lc
  {
    MulLe(l + 1, lc, bpl);
    MulLe(b + 1, bpl, lc);
  }

  /** Columns 0 to b of a block of lc lines of bpl bits fit in the block. */
  lemma ColumnRoom(b: nat, bpl: nat, lc: nat, n: nat, size: nat)
    requires b < bpl && n == bpl * lc && size == 8 * ((n + 7) / 8)
    ensures Cell(b + 1, lc, 0) <= n <= size && Cell(b + 1, lc, 0) == Cell(b, lc, 0) + lc
  {
    CellIsProduct(b + 1, lc, 0);
    MulLe(b + 1, bpl, lc);
  }

  lemma CellInBlock(l: nat, bpl: nat, b: nat, lc: nat, n: nat)
    requires l < lc && b < bpl && n == bpl * lc
    ensures Cell(l, bpl, b) == l * bpl + b && Cell(l, bpl, b) < n
  {
    CellIsProduct(l, bpl, b);
    GridIndex(b, l, bpl, lc);
  }

  lemma {:induction false} ColumnAt(s: seq<bool>, bpl: nat, b: nat, l: nat, j: nat)
    requires j < l
    ensures Column(s, bpl, b, l)[j] == Bit(s, j * bpl + b)
    decreases l
  {
    if j < l - 1 {
      ColumnAt(s, bpl, b, l - 1, j);
    } else {
      CellIsProduct(j, bpl, b);
    }
  }

  lemma {:induction false} ColumnsAt(s: seq<bool>, bpl: nat, lc: nat, k: nat, b: nat, l: nat)
    requires b < k && l < lc
    ensures b * lc + l < |Columns(s, bpl, lc, k)| && Columns(s, bpl, lc, k)[b * lc + l] == Bit(s, l * bpl + b)
    decreases k
  {
    GridIndex(l, b, lc, k);
    CellIsProduct(k, lc, 0);
    CellIsProduct(k - 1, lc, 0);
    if b < k - 1 {
      ColumnsAt(s, bpl, lc, k - 1, b, l);
    } else {
      CellIsProduct(b, lc, 0);
      ColumnAt(s, bpl, b, lc, l);
    }
  }

  lemma ColumnDone(ws: BitArray, region: seq<bool>, bpl: nat, lc: nat, b: nat, l: nat, prefix: seq<bool>, size: nat)
    requires l == lc && prefix == Columns(region, bpl, lc, b)
    requires Filled(ws, prefix + Column(region, bpl, b, l), size)
    ensures Filled(ws, Columns(region, bpl, lc, b + 1), size)
  {
    assert Columns(region, bpl, lc, b + 1) == prefix + Column(region, bpl, b, l);
  }

  lemma WorkspaceDone(ws: BitArray, region: seq<bool>, bpl: nat, lc: nat, b: nat, n: nat, size: nat)
    requires b == bpl && n == bpl * lc
    requires Filled(ws, Columns(region, bpl, lc, b), size)
    ensures ws.offset == n && ws.Bits() == Transposed(region, bpl, lc) + Zeros(size - n)
  {
    CellIsProduct(bpl, lc, 0);
  }

  /** ws holds the bits t, then zeros up to size, with its cursor after t. */
  ghost predicate Filled(ws: BitArray, t: seq<bool>, size: nat)
    reads ws, ws.rawData
  {
    ws.offset == |t| <= size && ws.Bits() == t + Zeros(size - |t|)
  }

  /** Bit l * bpl + b of s (line l, column b) is bit b * lc + l of the transposition. */
  lemma TransposedAt(s: seq<bool>, bpl: nat, lc: nat, b: nat, l: nat)
    requires b < bpl && l < lc
    ensures b * lc + l < bpl * lc && Transposed(s, bpl, lc)[b * lc + l] == Bit(s, l * bpl + b)
  {
    GridIndex(l, b, lc, bpl);
    ColumnsAt(s, bpl, lc, bpl, b, l);
  }

  /**
   * Rotating lc lines of bpl bits and then the resulting bpl lines of lc
   * bits gives back the original bits; in particular a square block
   * rotated twice is unchanged.
   */
  lemma TransposedTwice(s: seq<bool>, bpl: nat, lc: nat)
    requires |s| == bpl * lc
    ensures Transposed(Transposed(s, bpl, lc), lc, bpl) == s
  {
    var u := Transposed(Transposed(s, bpl, lc), lc, bpl);
    assert |u| == |s| by {
      assert lc * bpl == bpl * lc;
    }
    forall k | 0 <= k < |s|
      ensures u[k] == s[k]
    {
      var l, b := CellOf(k, bpl, lc);
      TransposedAt(Transposed(s, bpl, lc), lc, bpl, l, b);
      TransposedAt(s, bpl, lc, b, l);
    }
  }

  /** Position k of a grid of lc lines of bpl bits is column b of line l. */
  lemma CellOf(k: nat, bpl: nat, lc: nat) returns (l: nat, b: nat)
    requires k < bpl * lc
    ensures b < bpl && l < lc && k == l * bpl + b
  {
    l, b := k / bpl, k % bpl;
    if l >= lc {
      MulLe(lc, l, bpl);
    }
  }

  /** One bit read with get(1, pos). */
  lemma OneBit(bits: seq<bool>, pos: nat, v: nat)
    requires v == ValueOf(Padded(bits, pos, 1))
    ensures ToBits(v, 1) == [Bit(bits, pos)]
  {
    ToBitsValueOf(Padded(bits, pos, 1));
  }

  /** Bit j of the n bits from p is bit p + j. */
  lemma RegionBit(bits: seq<bool>, p: nat, n: nat, j: nat, pos: nat)
    requires j < n && pos == p + j
    ensures Bit(Padded(bits, p, n), j) == Bit(bits, pos)
  {
  }

  /** Appending one bit x to the bits c that follow prefix in a zero-padded buffer. */
  lemma AppendOne(prefix: seq<bool>, c: seq<bool>, x: bool, size: nat, k: nat, t: seq<bool>, u: seq<bool>)
    requires k == |prefix| + |c| && k < size && t == prefix + c + Zeros(size - k)
    requires u == Splice(t, k, [x])
    ensures u == prefix + (c + [x]) + Zeros(size - (k + 1))
  {
    assert Zeros(size - k) == [false] + Zeros(size - (k + 1));
    SpliceParts(prefix + c, [false], Zeros(size - (k + 1)), [x]);
    assert prefix + c + [x] == prefix + (c + [x]);
  }

  /** The first n bits of a string of n bits followed by padding. */
  lemma PaddedPrefix(t: seq<bool>, pad: seq<bool>, n: nat)
    requires |t| == n
    ensures Padded(t + pad, 0, n) == t
  {
    assert forall i :: 0 <= i < n ==> Padded(t + pad, 0, n)[i] == t[i];
  }

  /** What zGet returns: a number read with get(), or the content of a cached line. */
  datatype ZValue = Number(n: nat) | Content(bits: seq<bool>)

  /** The bit where line k of w bits starts, counting from `base`. */
  function LineAt(base: nat, k: nat, w: nat): nat
  {
    base + k * w
  }

  /** How far zGet fills the cache: past the cursor with no line given, to line n > 0, else to the cursor. */
  function FillFor(zLine: Option<int>): Until
  {
    if zLine.None? then PastCursor
    else if zLine.value > 0 then ToLine(zLine.value)
    else ToCursor
  }

  /** The cache line zGet returns out of len lines: the last one, line n, or the n-th from the end for n < 0. */
  function CacheIndex(len: nat, zLine: Option<int>): int
  {
    if zLine.None? then len - 1
    else if zLine.value >= 0 then zLine.value
    else len + zLine.value
  }

  /**
   * A zone of plain lines: for a width that is not compressed, line i of
   * the zone starting at `start` holds the w bits vs[i].
   */
  ghost predicate PlainZone(bits: seq<bool>, start: nat, w: nat, vs: seq<seq<bool>>)
  {
    forall i :: 0 <= i < |vs| ==> Padded(bits, LineAt(start, i, w), w) == vs[i]
  }

  /** Pushing a w-bit value at the end of a plain zone adds it as the zone's next line. */
  lemma PlainZoneGrows(bits: seq<bool>, start: nat, w: nat, vs: seq<seq<bool>>, v: nat)
    requires PlainZone(bits, start, w, vs) && v < Pow2(w)
    requires LineAt(start, |vs|, w) + w <= |bits|
    ensures PlainZone(Splice(bits, LineAt(start, |vs|, w), ToBits(v, w)), start, w, vs + [ToBits(v, w)])
    ensures ValueOf((vs + [ToBits(v, w)])[|vs|]) == v
  {
    PlainZoneSnoc(bits, start, w, vs, ToBits(v, w));
    ValueOfToBitsExact(v, w);
  }

  lemma PlainZoneSnoc(bits: seq<bool>, start: nat, w: nat, vs: seq<seq<bool>>, t: seq<bool>)
    requires PlainZone(bits, start, w, vs) && |t| == w
    requires LineAt(start, |vs|, w) + w <= |bits|
    ensures PlainZone(Splice(bits, LineAt(start, |vs|, w), t), start, w, vs + [t])
  {
    var p := LineAt(start, |vs|, w);
    var after := Splice(bits, p, t);
    forall i | 0 <= i < |vs| + 1
      ensures Padded(after, LineAt(start, i, w), w) == (vs + [t])[i]
    {
      if i < |vs| {
        PlainLineKept(bits, start, w, i, |vs|, t);
      } else {
        assert Padded(after, p, w) == t;
      }
    }
  }

  /** A write at line m of a zone leaves line i < m as it was. */
  lemma PlainLineKept(bits: seq<bool>, start: nat, w: nat, i: nat, m: nat, t: seq<bool>)
    requires i < m && |t| == w && LineAt(start, m, w) + w <= |bits|
    ensures Padded(Splice(bits, LineAt(start, m, w), t), LineAt(start, i, w), w) == Padded(bits, LineAt(start, i, w), w)
  {
    MulLe(i + 1, m, w);
    SetKeepsOthers(bits, LineAt(start, m, w), t, LineAt(start, i, w), w);
  }

  /** Line |vs| - k of a plain zone starts k lines of w bits before the zone's end. */
  lemma PlainLineBack(start: nat, w: nat, m: nat, k: nat)
    requires k <= m
    ensures k * w <= LineAt(start, m, w)
    ensures LineAt(start, m, w) - k * w == LineAt(start, m - k, w)
  {
    MulLe(k, m, w);
    assert (m - k) * w == m * w - k * w;
  }

  /**
   * zGet(8, 0, -1) on a fresh 24-bit array after zPush(5, 8): as written,
   * the line asked for sits at offset + 8, past the cursor, and reads 0,
   * while the one line pushed (the last line) holds 5.
   */
  lemma BackReadAsWritten()
    ensures var bits := ToBits(5, 8) + Zeros(16);
      PlainZone(bits, 0, 8, [ToBits(5, 8)])
      && ValueOf(Padded(bits, LineAt(8, 1, 8), 8)) == 0
      && ValueOf(Padded(bits, LineAt(0, 0, 8), 8)) == 5
  {
    var bits := ToBits(5, 8) + Zeros(16);
    assert Padded(bits, 0, 8) == ToBits(5, 8);
    assert Padded(bits, 16, 8) == Zeros(8);
    ValueOfZeros(8);
    ValueOfToBitsExact(5, 8);
  }

  /**
   * What the corrected plain zGet reads in a plain zone: line n holds
   * vs[n]; with the cursor at the zone's end, line -k lies k lines back;
   * a reader at line j reads line j.
   */
  lemma PlainZoneRead(bits: seq<bool>, start: nat, w: nat, vs: seq<seq<bool>>, cursor: nat, zLine: Option<int>, j: nat)
    requires PlainZone(bits, start, w, vs)
    ensures zLine.Some? && 0 <= zLine.value < |vs| ==> Padded(bits, LineAt(start, zLine.value, w), w) == vs[zLine.value]
    ensures zLine.Some? && -|vs| <= zLine.value < 0 && cursor == LineAt(start, |vs|, w) ==>
      -zLine.value * w <= cursor && Padded(bits, cursor - -zLine.value * w, w) == vs[|vs| + zLine.value]
    ensures zLine.None? && j < |vs| && cursor == LineAt(start, j, w) ==> Padded(bits, cursor, w) == vs[j]
  {
    if zLine.Some? && -|vs| <= zLine.value < 0 && cursor == LineAt(start, |vs|, w) {
      PlainLineBack(start, w, |vs|, -zLine.value);
    }
  }

  /** ToBits of a single bit. */
  lemma OneBitOf(b: bool)
    ensures ToBits(if b then 1 else 0, 1) == [b]
  {
  }

  class BitArray {
    const rawData: array<byte>
    /** The cursor, in bits. */
    var offset: nat
    /** The largest cursor position seen so far (see SetOffset). */
    var maxOffset: nat
    /** zCache: the cache lines of each compressed zone, by the zone's first bit. */
    var zCache: map<nat, seq<CacheLine>>

    /** The buffer as bits, most significant bit of each byte first. */
    function Bits(): (b: seq<bool>)
      reads rawData
      ensures |b| == 8 * rawData.Length
    {
      BitsOf(rawData[..])
    }

    /** new BitArray(bitSize): a buffer of ceil(bitSize / 8) zero bytes. */
    constructor (bitSize: nat)
      ensures fresh(rawData) && rawData.Length == (bitSize + 7) / 8
      ensures Bits() == Zeros(8 * rawData.Length)
      ensures offset == 0 && maxOffset == 0 && zCache == map[]
    {
      rawData := new byte[(bitSize + 7) / 8](_ => 0);
      offset, maxOffset, zCache := 0, 0, map[];
      new;
      BitsOfZero(rawData[..]);
    }

    /** new BitArray(buffer): a BitArray over the given bytes (here a copy of them). */
    constructor FromBytes(bytes: seq<byte>)
      ensures fresh(rawData) && rawData[..] == bytes
      ensures offset == 0 && maxOffset == 0 && zCache == map[]
    {
      rawData := new byte[|bytes|](i requires 0 <= i < |bytes| => bytes[i]);
      offset, maxOffset, zCache := 0, 0, map[];
    }

    /** setOffset: moves the cursor; maxOffset becomes the largest of itself, the old and the new cursor. */
    method SetOffset(o: nat)
      modifies this
      ensures offset == o && maxOffset == Max(Max(old(maxOffset), old(offset)), o)
      ensures offset <= maxOffset && old(offset) <= maxOffset && old(maxOffset) <= maxOffset
      ensures zCache == old(zCache)
    {
      maxOffset := Max(Max(maxOffset, offset), o);
      offset := o;
    }

    /** resetOffset: setOffset(0). */
    method ResetOffset()
      modifies this
      ensures offset == 0 && maxOffset == Max(old(maxOffset), old(offset))
      ensures zCache == old(zCache)
    {
      SetOffset(0);
    }

    // -------------------------------------------------------------------
    // Writing

    /**
     * The block update both branches of set() make: the n bits of the byte
     * holding bit `at`, from `at` on, are replaced by those of chunk.
     */
    method WriteChunk(chunk: nat, n: nat, at: nat)
      requires at % 8 + n <= 8 && chunk < Pow2(n) && at < 8 * rawData.Length
      modifies rawData
      ensures Bits() == Splice(old(Bits()), at, ToBits(chunk, n))
    {
      var data := rawData[..];
      WriteFirstByte(data, at, n, chunk);
      rawData[at / 8] := WriteField(rawData[at / 8] as nat, 8 - at % 8, n, chunk) as byte;
      assert rawData[..] == data[at / 8 := WriteField(data[at / 8] as nat, 8 - at % 8, n, chunk) as byte];
    }

    /**
     * set(value, n, at) for a number: the part of the value that fits in
     * the byte holding bit `at` is written there, the rest by a recursive
     * call at the next byte.
     */
    method WriteAt(value: nat, n: nat, at: nat)
      requires 0 < n <= 32 && value < Pow2(n) && at + n <= 8 * rawData.Length
      modifies rawData
      ensures Bits() == Splice(old(Bits()), at, ToBits(value, n))
      decreases n
    {
      var avail := 8 - at % 8;
      if n <= avail {
        WriteChunk(value, n, at);
      } else {
        var high, low := Shr(value, n - avail), Low(value, n - avail);
        SplitField(value, avail, n - avail, n);
        WriteChunk(high, avail, at);
        WriteAt(low, n - avail, at + avail);
        SpliceNext(old(Bits()), at, ToBits(high, avail), ToBits(low, n - avail), at + avail);
      }
    }

    /**
     * set(value, bitSize, at) for a number: a zero bit size writes nothing;
     * the default width is DefaultWidth(value); the default offset is the
     * cursor, which moves past the value first.
     */
    method Set(value: nat, bitSize: Option<nat>, at: Option<nat>)
      requires NumberWidth(value, bitSize) <= 32
      requires NumberWidth(value, bitSize) == 0 || value < Pow2(NumberWidth(value, bitSize))
      requires Or(at, offset) + NumberWidth(value, bitSize) <= 8 * rawData.Length
      modifies this, rawData
      ensures var w, p := NumberWidth(value, bitSize), Or(at, old(offset));
        Bits() == (if w == 0 then old(Bits()) else Splice(old(Bits()), p, ToBits(value, w)))
      ensures var w := NumberWidth(value, bitSize);
        if w == 0 || at.Some? then offset == old(offset) && maxOffset == old(maxOffset)
        else offset == old(offset) + w && maxOffset == Max(old(maxOffset), old(offset) + w)
      ensures zCache == old(zCache)
    {
      if bitSize == Some(0) {
        return;
      }
      var w := NumberWidth(value, bitSize);
      var p := offset;
      if at.Some? {
        p := at.value;
      } else {
        SetOffset(offset + w);
      }
      WriteAt(value, w, p);
    }

    /** append(value, bitSize) for a number: set at the cursor. */
    method Append(value: nat, bitSize: Option<nat>)
      requires NumberWidth(value, bitSize) <= 32
      requires NumberWidth(value, bitSize) == 0 || value < Pow2(NumberWidth(value, bitSize))
      requires offset + NumberWidth(value, bitSize) <= 8 * rawData.Length
      modifies this, rawData
      ensures var w := NumberWidth(value, bitSize);
        Bits() == (if w == 0 then old(Bits()) else Splice(old(Bits()), old(offset), ToBits(value, w)))
      ensures offset == old(offset) + NumberWidth(value, bitSize)
      ensures NumberWidth(value, bitSize) > 0 ==> maxOffset == Max(old(maxOffset), offset)
      ensures NumberWidth(value, bitSize) == 0 ==> maxOffset == old(maxOffset)
      ensures zCache == old(zCache)
    {
      Set(value, bitSize, None);
    }

    // -------------------------------------------------------------------
    // Reading

    /**
     * get(n, at): the n bits from `at` as a number, reading 0 past the end
     * of the buffer; the first byte's part is shifted left (by the
     * source's 32-bit signed `<<=`) over the rest, read recursively.
     */
    function ReadAt(n: nat, at: nat): (v: nat)
      requires n <= 31
      reads this, rawData
      ensures v == ValueOf(Padded(Bits(), at, n))
      decreases n
    {
      if n <= 8 - at % 8 then
        ReadFirstByte(rawData[..], at, n);
        Shr(Low(ByteAt(rawData[..], at / 8), 8 - at % 8), 8 - at % 8 - n)
      else
        ReadPastByte(rawData[..], at, n, ReadAt(n - (8 - at % 8), at + (8 - at % 8)));
        Shl(Low(ByteAt(rawData[..], at / 8), 8 - at % 8), n - (8 - at % 8)) + ReadAt(n - (8 - at % 8), at + (8 - at % 8))
    }

    /** get(n, at): with no offset, reads at the cursor and moves it past the bits read. */
    method Get(n: nat, at: Option<nat>) returns (v: nat)
      requires n <= 31
      modifies this
      ensures v == ValueOf(Padded(Bits(), Or(at, old(offset)), n))
      ensures at.Some? ==> offset == old(offset) && maxOffset == old(maxOffset)
      ensures at.None? ==> offset == old(offset) + n && maxOffset == Max(old(maxOffset), offset)
      ensures zCache == old(zCache)
    {
      var p := offset;
      if at.Some? {
        p := at.value;
      } else {
        SetOffset(offset + n);
      }
      v := ReadAt(n, p);
    }
  
    // -------------------------------------------------------------------
    // Writing the bits of another BitArray

    /**
     * One block of set(src, ...): k bits read with src.get at src's cursor
     * and written into the byte holding bit `at`.
     */
    method CopyChunk(src: BitArray, k: nat, at: nat)
      requires src.rawData != rawData
      requires at % 8 + k <= 8 && at < 8 * rawData.Length
      modifies rawData, src
      ensures Bits() == Splice(old(Bits()), at, Padded(old(src.Bits()), old(src.offset), k))
      ensures src.offset == old(src.offset) + k && src.maxOffset == Max(old(src.maxOffset), src.offset)
      ensures src.zCache == old(src.zCache)
    {
      ghost var source, o := src.Bits(), src.offset;
      var chunk := src.Get(k, None);
      assert chunk == ValueOf(Padded(source, o, k)) && Bits() == old(Bits());
      WriteChunk(chunk, k, at);
      ToBitsValueOf(Padded(source, o, k));
    }

    /**
     * set(src, n, at) for a BitArray value: the same two branches as
     * WriteAt, each chunk read from src's cursor.
     */
    method WriteFrom(src: BitArray, n: nat, at: nat)
      requires src.rawData != rawData
      requires 0 < n && at + n <= 8 * rawData.Length
      modifies rawData, src
      ensures Bits() == Splice(old(Bits()), at, Padded(old(src.Bits()), old(src.offset), n))
      ensures src.offset == old(src.offset) + n && src.maxOffset == Max(old(src.maxOffset), src.offset)
      ensures src.zCache == old(src.zCache)
      decreases n
    {
      var avail := 8 - at % 8;
      if n <= avail {
        CopyChunk(src, n, at);
      } else {
        ghost var before, source, o := Bits(), src.Bits(), src.offset;
        CopyChunk(src, avail, at);
        ghost var mid, o2 := Bits(), src.offset;
        assert src.Bits() == source;
        var rest := n - avail;
        WriteFrom(src, rest, at + avail);
        SpliceChunks(before, mid, Bits(), at, at + avail, avail, rest, n, source, o, o2);
      }
    }

    /**
     * set(src, bitSize, at) for a BitArray value: the default width is the
     * whole of src's buffer; otherwise as Set.
     */
    method SetFrom(src: BitArray, bitSize: Option<nat>, at: Option<nat>)
      requires src.rawData != rawData
      requires Or(at, offset) + Or(bitSize, 8 * src.rawData.Length) <= 8 * rawData.Length
      modifies this, rawData, src
      ensures var w, p := Or(bitSize, 8 * src.rawData.Length), Or(at, old(offset));
        Bits() == (if w == 0 then old(Bits()) else Splice(old(Bits()), p, Padded(old(src.Bits()), old(src.offset), w)))
      ensures var w := Or(bitSize, 8 * src.rawData.Length);
        if w == 0 || at.Some? then offset == old(offset) && maxOffset == old(maxOffset)
        else offset == old(offset) + w && maxOffset == Max(old(maxOffset), old(offset) + w)
      ensures var w := Or(bitSize, 8 * src.rawData.Length);
        if w == 0 then src.offset == old(src.offset) && src.maxOffset == old(src.maxOffset)
        else src.offset == old(src.offset) + w && src.maxOffset == Max(old(src.maxOffset), src.offset)
      ensures zCache == old(zCache) && src.zCache == old(src.zCache)
    {
      var w := Or(bitSize, 8 * src.rawData.Length);
      if w == 0 {
        return;
      }
      var p := offset;
      if at.Some? {
        p := at.value;
      } else {
        SetOffset(offset + w);
      }
      WriteFrom(src, w, p);
    }

    /** append(src, bitSize) for a BitArray value. */
    method AppendFrom(src: BitArray, bitSize: Option<nat>)
      requires src.rawData != rawData
      requires offset + Or(bitSize, 8 * src.rawData.Length) <= 8 * rawData.Length
      modifies this, rawData, src
      ensures var w := Or(bitSize, 8 * src.rawData.Length);
        Bits() == (if w == 0 then old(Bits()) else Splice(old(Bits()), old(offset), Padded(old(src.Bits()), old(src.offset), w)))
      ensures var w := Or(bitSize, 8 * src.rawData.Length);
        offset == old(offset) + w && maxOffset == (if w == 0 then old(maxOffset) else Max(old(maxOffset), offset))
      ensures var w := Or(bitSize, 8 * src.rawData.Length);
        src.offset == old(src.offset) + w && src.maxOffset == (if w == 0 then old(src.maxOffset) else Max(old(src.maxOffset), src.offset))
      ensures zCache == old(zCache) && src.zCache == old(src.zCache)
    {
      SetFrom(src, bitSize, None);
    }
    // -------------------------------------------------------------------
    // Exporting and comparing

    /** new BitArray(w).append(v, n): a fresh buffer of ceil(w / 8) bytes starting with the n bits of v. */
    static method Holding(w: nat, v: nat, n: nat) returns (r: BitArray)
      requires n <= w && n <= 32 && v < Pow2(n)
      ensures fresh(r) && fresh(r.rawData) && r.rawData.Length == (w + 7) / 8
      ensures Filled(r, ToBits(v, n), 8 * r.rawData.Length)
      ensures r.maxOffset == n && r.zCache == map[]
    {
      r := new BitArray(w);
      ghost var before := r.Bits();
      r.Append(v, Some(n));
      HeldBits(8 * r.rawData.Length, before, r.Bits(), v, n);
    }

    /**
     * export(w, p): a new BitArray of ceil(w / 8) bytes holding the w bits
     * from p (zeros past the end of the buffer), with its cursor after them.
     * The first byte's part is read with get and appended; a window that
     * runs past that byte takes the rest from a recursive export.
     */
    method ExportAt(w: nat, p: nat) returns (r: BitArray)
      ensures fresh(r) && fresh(r.rawData) && r.rawData.Length == (w + 7) / 8
      ensures r.Bits() == Exported(Bits(), p, w)
      ensures r.offset == w && r.maxOffset == w && r.zCache == map[]
      decreases w, 2
    {
      var avail := 8 - p % 8;
      if w <= avail {
        var b := ByteAt(rawData[..], p / 8);
        var v := Shr(Low(b, 8 - p % 8), 8 - p % 8 - w);
        FirstByteValue(rawData[..], p, w, b, v);
        r := Holding(w, v, w);
        ExportedWhole(r, Bits(), p, w, v, 8 * r.rawData.Length);
      } else {
        r := ExportSpanning(w, p, avail);
      }
    }

    /** export's branch for a window that runs past the byte holding p. */
    method ExportSpanning(w: nat, p: nat, avail: nat) returns (r: BitArray)
      requires avail == 8 - p % 8 && avail < w
      ensures fresh(r) && fresh(r.rawData) && r.rawData.Length == (w + 7) / 8
      ensures r.Bits() == Exported(Bits(), p, w)
      ensures r.offset == w && r.maxOffset == w && r.zCache == map[]
      decreases w, 1
    {
      var b := ByteAt(rawData[..], p / 8);
      ReadRestOfByte(rawData[..], p);
      var hi := Low(b, avail);
      r := HeadThenRest(w, hi, avail, w - avail, p + avail);
      ExportedChunks(r, Bits(), p, avail, w - avail, w, p + avail, hi, 8 * r.rawData.Length);
    }

    /** new BitArray(w) holding the a-bit value hi, followed by the m bits from q. */
    method HeadThenRest(w: nat, hi: nat, a: nat, m: nat, q: nat) returns (r: BitArray)
      requires 0 < a <= 8 && hi < Pow2(a) && w == a + m && 0 < m
      ensures fresh(r) && fresh(r.rawData) && r.rawData.Length == (w + 7) / 8
      ensures Filled(r, ToBits(hi, a) + Padded(Bits(), q, m), 8 * r.rawData.Length)
      ensures r.maxOffset == w && r.zCache == map[]
      decreases w, 0
    {
      r := Holding(w, hi, a);
      AppendExport(r, m, q, ToBits(hi, a), 8 * r.rawData.Length);
    }

    /** The tail of export's multi-byte branch: dest.append(export(m, q).resetOffset(), m). */
    method AppendExport(dest: BitArray, m: nat, q: nat, ghost before: seq<bool>, ghost size: nat)
      requires dest.rawData != rawData && 0 < m && |before| + m <= size && size == 8 * dest.rawData.Length
      requires Filled(dest, before, size)
      modifies dest, dest.rawData
      ensures Filled(dest, before + Padded(Bits(), q, m), size)
      ensures dest.maxOffset == Max(old(dest.maxOffset), dest.offset) && dest.zCache == old(dest.zCache)
      decreases m, 3
    {
      var rest := ExportAt(m, q);
      rest.ResetOffset();
      PaddedExported(Bits(), q, m);
      ghost var t := dest.Bits();
      dest.AppendFrom(rest, Some(m));
      AppendRun(before, Padded(Bits(), q, m), size, t, dest.Bits());
    }

    /** export(w, at): with no offset, exports from the cursor and moves it past the bits exported. */
    method Export(w: nat, at: Option<nat>) returns (r: BitArray)
      modifies this
      ensures fresh(r) && fresh(r.rawData) && r.rawData.Length == (w + 7) / 8
      ensures r.Bits() == Exported(Bits(), Or(at, old(offset)), w)
      ensures r.offset == w && r.maxOffset == w && r.zCache == map[]
      ensures at.Some? ==> offset == old(offset) && maxOffset == old(maxOffset)
      ensures at.None? ==> offset == old(offset) + w && maxOffset == Max(old(maxOffset), offset)
      ensures zCache == old(zCache)
    {
      var p := offset;
      if at.Some? {
        p := at.value;
      } else {
        SetOffset(offset + w);
      }
      r := ExportAt(w, p);
    }

    /**
     * equalSequence(n, a, other, b): exports n bits of each side and
     * compares the exports byte by byte.
     */
    method EqualSequence(n: nat, a: nat, other: BitArray, b: nat) returns (eq: bool)
      ensures eq <==> Padded(Bits(), a, n) == Padded(other.Bits(), b, n)
    {
      var x := ExportAt(n, a);
      var y := other.ExportAt(n, b);
      eq := true;
      var i := 0;
      while i < x.rawData.Length
        invariant 0 <= i <= x.rawData.Length
        invariant eq <==> x.rawData[..i] == y.rawData[..i]
      {
        if x.rawData[i] != y.rawData[i] {
          eq := false;
        }
        assert x.rawData[..i + 1] == x.rawData[..i] + [x.rawData[i]];
        assert y.rawData[..i + 1] == y.rawData[..i] + [y.rawData[i]];
        i := i + 1;
      }
      assert x.rawData[..] == x.rawData[..i] && y.rawData[..] == y.rawData[..i];
      if eq {
        assert x.Bits() == y.Bits();
      } else if x.Bits() == y.Bits() {
        BitsOfInjective(x.rawData[..], y.rawData[..]);
      }
      ExportedEqual(Bits(), a, other.Bits(), b, n);
    }
    /**
     * concat(other): a new BitArray holding the bits of this array before
     * its cursor followed by those of other before its cursor; each
     * cursor is put back where it was. When other is this array, the
     * second part is read from where the first one ended.
     */
    method Concat(other: BitArray) returns (r: BitArray)
      requires other == this || other.rawData != rawData
      modifies this, other
      ensures fresh(r) && fresh(r.rawData) && r.rawData.Length == (old(offset) + old(other.offset) + 7) / 8
      ensures r.Bits() == Padded(old(Bits()), 0, old(offset))
                          + Padded(old(other.Bits()), if other == this then old(offset) else 0, old(other.offset))
                          + Zeros(8 * r.rawData.Length - (old(offset) + old(other.offset)))
      ensures r.offset == old(offset) + old(other.offset) && r.maxOffset == r.offset && r.zCache == map[]
      ensures offset == old(offset) && other.offset == old(other.offset)
      ensures other == this ==> maxOffset == Max(old(maxOffset), 2 * old(offset))
      ensures other != this ==> maxOffset == Max(old(maxOffset), old(offset))
                                && other.maxOffset == Max(old(other.maxOffset), old(other.offset))
      ensures zCache == old(zCache) && other.zCache == old(other.zCache)
    {
      var o1, o2 := offset, other.offset;
      r := new BitArray(o1 + o2);
      ResetOffset();
      other.ResetOffset();
      AppendBoth(r, other, o1, o2);
      SetOffset(o1);
      other.SetOffset(o2);
    }

    /** The two appends of concat, made with both cursors at 0. */
    method AppendBoth(r: BitArray, other: BitArray, o1: nat, o2: nat)
      requires other == this || other.rawData != rawData
      requires r.rawData != rawData && r.rawData != other.rawData && r != this && r != other
      requires offset == 0 && other.offset == 0 && r.offset == 0 && r.maxOffset == 0
      requires other == this ==> o2 == o1
      requires r.Bits() == Zeros(8 * r.rawData.Length) && o1 + o2 <= 8 * r.rawData.Length
      modifies r, r.rawData, this, other
      ensures r.Bits() == Padded(old(Bits()), 0, o1)
                          + Padded(old(other.Bits()), if other == this then o1 else 0, o2)
                          + Zeros(8 * r.rawData.Length - (o1 + o2))
      ensures r.offset == o1 + o2 && r.maxOffset == r.offset && r.zCache == old(r.zCache)
      ensures other == this ==> offset == o1 + o2 && maxOffset == Max(old(maxOffset), o1 + o2)
      ensures other != this ==> offset == o1 && maxOffset == Max(old(maxOffset), o1)
                                && other.offset == o2 && other.maxOffset == Max(old(other.maxOffset), o2)
      ensures zCache == old(zCache) && other.zCache == old(other.zCache)
    {
      if other == this {
        AppendTwice(r, o1);
      } else {
        AppendPair(r, other, o1, o2);
      }
    }

    /** The appends of concat when other is this array: its first o1 bits, then the o1 after them. */
    method AppendTwice(r: BitArray, o1: nat)
      requires r.rawData != rawData && r != this
      requires offset == 0 && r.offset == 0 && r.maxOffset == 0
      requires r.Bits() == Zeros(8 * r.rawData.Length) && o1 + o1 <= 8 * r.rawData.Length
      modifies r, r.rawData, this
      ensures r.Bits() == Padded(old(Bits()), 0, o1) + Padded(old(Bits()), o1, o1) + Zeros(8 * r.rawData.Length - (o1 + o1))
      ensures r.offset == o1 + o1 && r.maxOffset == r.offset && r.zCache == old(r.zCache)
      ensures offset == o1 + o1 && maxOffset == Max(old(maxOffset), o1 + o1) && zCache == old(zCache)
    {
      ghost var bits := Bits();
      r.AppendFrom(this, Some(o1));
      ghost var t1 := r.Bits();
      assert Bits() == bits && offset == o1;
      r.AppendFrom(this, Some(o1));
      ghost var first, second := Padded(bits, 0, o1), Padded(bits, o1, o1);
      Concatenated(8 * r.rawData.Length, o1, o1, first, second, t1, r.Bits());
    }

    /** The appends of concat for two arrays over different buffers: the first o1 bits of each, then o2 of other. */
    method AppendPair(r: BitArray, other: BitArray, o1: nat, o2: nat)
      requires other != this && other.rawData != rawData
      requires r.rawData != rawData && r.rawData != other.rawData && r != this && r != other
      requires offset == 0 && other.offset == 0 && r.offset == 0 && r.maxOffset == 0
      requires r.Bits() == Zeros(8 * r.rawData.Length) && o1 + o2 <= 8 * r.rawData.Length
      modifies r, r.rawData, this, other
      ensures r.Bits() == Padded(old(Bits()), 0, o1) + Padded(old(other.Bits()), 0, o2) + Zeros(8 * r.rawData.Length - (o1 + o2))
      ensures r.offset == o1 + o2 && r.maxOffset == r.offset && r.zCache == old(r.zCache)
      ensures offset == o1 && maxOffset == Max(old(maxOffset), o1)
      ensures other.offset == o2 && other.maxOffset == Max(old(other.maxOffset), o2)
      ensures zCache == old(zCache) && other.zCache == old(other.zCache)
    {
      ghost var bits, otherBits := Bits(), other.Bits();
      r.AppendFrom(this, Some(o1));
      ghost var t1 := r.Bits();
      assert other.Bits() == otherBits && other.offset == 0;
      r.AppendFrom(other, Some(o2));
      ghost var first, second := Padded(bits, 0, o1), Padded(otherBits, 0, o2);
      Concatenated(8 * r.rawData.Length, o1, o2, first, second, t1, r.Bits());
    }
    // -------------------------------------------------------------------
    // Rotating

    /**
     * rotate's workspace: the bits of the block of lc lines of bpl bits
     * from p, read one at a time with get, column by column, and appended
     * to a fresh BitArray.
     */
    method Workspace(p: nat, bpl: nat, lc: nat, n: nat) returns (ws: BitArray)
      requires n == bpl * lc
      ensures fresh(ws) && fresh(ws.rawData) && ws.rawData.Length == (n + 7) / 8
      ensures ws.Bits() == Transposed(Padded(Bits(), p, n), bpl, lc) + Zeros(8 * ws.rawData.Length - n)
      ensures ws.offset == n
    {
      ghost var region := Padded(Bits(), p, n);
      ws := new BitArray(n);
      ghost var size := 8 * ws.rawData.Length;
      EmptyConcat(Zeros(size));
      var b := 0;
      while b < bpl
        invariant InBlock(ws, p, bpl, lc, n, region, b, size)
      {
        ColumnRoom(b, bpl, lc, n, size);
        AppendColumn(ws, p, bpl, lc, n, region, b, size);
        b := b + 1;
      }
      WorkspaceDone(ws, region, bpl, lc, b, n, size);
    }

    /** Facts rotate's outer loop keeps: columns 0 to b - 1 of the block are laid out in ws. */
    ghost predicate InBlock(ws: BitArray, p: nat, bpl: nat, lc: nat, n: nat, region: seq<bool>, b: nat, size: nat)
      reads this, rawData, ws, ws.rawData
    {
      ws.rawData != rawData && b <= bpl && n == bpl * lc && region == Padded(Bits(), p, n)
      && size == 8 * ws.rawData.Length && size == 8 * ((n + 7) / 8)
      && Filled(ws, Columns(region, bpl, lc, b), size)
    }

    /** Facts rotate's inner loop keeps: the first l bits of column b follow prefix. */
    ghost predicate InColumn(ws: BitArray, p: nat, bpl: nat, lc: nat, n: nat, region: seq<bool>, b: nat, l: nat,
                             prefix: seq<bool>, size: nat)
      reads this, rawData, ws, ws.rawData
    {
      ws.rawData != rawData && b < bpl && l <= lc && n == bpl * lc && region == Padded(Bits(), p, n)
      && |prefix| + lc <= size && size == 8 * ws.rawData.Length
      && Filled(ws, prefix + Column(region, bpl, b, l), size)
    }

    /** The inner loop of rotate: column b of the block, bit by bit. */
    method AppendColumn(ws: BitArray, p: nat, bpl: nat, lc: nat, n: nat, ghost region: seq<bool>, b: nat, ghost size: nat)
      requires b < bpl && Cell(b + 1, lc, 0) <= size && InBlock(ws, p, bpl, lc, n, region, b, size)
      modifies ws, ws.rawData
      ensures InBlock(ws, p, bpl, lc, n, region, b + 1, size)
    {
      ghost var prefix := Columns(region, bpl, lc, b);
      EmptyConcat(prefix);
      assert prefix + Column(region, bpl, b, 0) == prefix;
      var l := 0;
      while l < lc
        invariant InColumn(ws, p, bpl, lc, n, region, b, l, prefix, size)
      {
        AppendCell(ws, p, bpl, lc, n, region, b, l, prefix, size);
        l := l + 1;
      }
      ColumnDone(ws, region, bpl, lc, b, l, prefix, size);
    }

    /** One pass of rotate's inner loop: ws.append(get(1, p + l * bpl + b), 1). */
    method AppendCell(ws: BitArray, p: nat, bpl: nat, lc: nat, n: nat, ghost region: seq<bool>, b: nat, l: nat,
                      ghost prefix: seq<bool>, ghost size: nat)
      requires l < lc && InColumn(ws, p, bpl, lc, n, region, b, l, prefix, size)
      modifies ws, ws.rawData
      ensures InColumn(ws, p, bpl, lc, n, region, b, l + 1, prefix, size)
    {
      var pos := p + l * bpl + b;
      CellInBlock(l, bpl, b, lc, n);
      RegionBit(Bits(), p, n, Cell(l, bpl, b), pos);
      ghost var before := ws.Bits();
      CopyBit(ws, pos);
      AppendOne(prefix, Column(region, bpl, b, l), Bit(region, Cell(l, bpl, b)), size, |prefix| + l, before, ws.Bits());
    }

    /** ws.append(get(1, pos), 1). */
    method CopyBit(ws: BitArray, pos: nat)
      requires ws.rawData != rawData && ws.offset < 8 * ws.rawData.Length
      modifies ws, ws.rawData
      ensures ws.Bits() == Splice(old(ws.Bits()), old(ws.offset), [Bit(Bits(), pos)])
      ensures ws.offset == old(ws.offset) + 1
    {
      var bit := ReadAt(1, pos);
      OneBit(Bits(), pos, bit);
      ws.Append(bit, Some(1));
    }

    /**
     * rotate(bpl, lc, at): the block of lc lines of bpl bits from `at`
     * (by default the cursor, which then moves past the block) is
     * rewritten column by column; an empty block changes nothing.
     */
    method Rotate(bpl: nat, lc: nat, at: Option<nat>)
      requires Or(at, offset) + bpl * lc <= 8 * rawData.Length
      modifies this, rawData
      ensures var p, n := Or(at, old(offset)), bpl * lc;
        Bits() == (if n == 0 then old(Bits()) else Splice(old(Bits()), p, Transposed(Padded(old(Bits()), p, n), bpl, lc)))
      ensures if bpl * lc == 0 || at.Some? then offset == old(offset) && maxOffset == old(maxOffset)
              else offset == old(offset) + bpl * lc && maxOffset == Max(old(maxOffset), offset)
      ensures zCache == old(zCache)
    {
      if bpl == 0 || lc == 0 {
        return;
      }
      var p := offset;
      if at.Some? {
        p := at.value;
      } else {
        SetOffset(offset + bpl * lc);
      }
      RotateAt(p, bpl, lc, bpl * lc);
    }

    /** rotate's body once the start p is known: build the workspace, then set it back at p. */
    method RotateAt(p: nat, bpl: nat, lc: nat, n: nat)
      requires n == bpl * lc && 0 < n && p + n <= 8 * rawData.Length
      modifies this, rawData
      ensures Bits() == Splice(old(Bits()), p, Transposed(Padded(old(Bits()), p, n), bpl, lc))
      ensures offset == old(offset) && maxOffset == old(maxOffset) && zCache == old(zCache)
    {
      var ws := Workspace(p, bpl, lc, n);
      ws.ResetOffset();
      PaddedPrefix(Transposed(Padded(Bits(), p, n), bpl, lc), Zeros(8 * ws.rawData.Length - n), n);
      SetFrom(ws, Some(n), Some(p));
    }
  
    // -------------------------------------------------------------------
    // The zone cache

    /**
     * The fields of the sub-block at bit pos, read with get(): the type
     * bit, the length and, for a reference only, how many lines back it
     * points (0 for a literal, whose back field is not read).
     */
    method ReadFields(pos: nat, w: nat) returns (isRef: bool, len: nat, back: nat)
      requires SizeBits(w) <= 31
      ensures isRef == Bit(Bits(), pos) && len == Field(Bits(), pos + 1, SizeBits(w))
      ensures isRef ==> back == Field(Bits(), pos + 1 + SizeBits(w), RefBits(w))
    {
      var blockType := ReadAt(1, pos);
      BitPadded(Bits(), pos);
      isRef := blockType != 0;
      len := ReadAt(SizeBits(w), pos + 1);
      FieldPadded(Bits(), pos + 1, SizeBits(w));
      back := 0;
      if isRef {
        RefBitsWithin(w);
        back := ReadAt(RefBits(w), pos + 1 + SizeBits(w));
        FieldPadded(Bits(), pos + 1 + SizeBits(w), RefBits(w));
      }
    }

    /**
     * One sub-block of a compressed line, read at bit pos: `got` is the
     * content decoded so far and hist the contents of the lines before
     * this one.
     */
    method ReadBlock(pos: nat, got: seq<bool>, w: nat, hist: seq<seq<bool>>) returns (st: Option<(nat, seq<bool>)>)
      requires SizeBits(w) <= 31
      ensures st == Step(Bits(), pos, got, w, hist)
    {
      var isRef, len, back := ReadFields(pos, w);
      if !isRef {
        st := Some((pos + 1 + SizeBits(w) + len, got + Padded(Bits(), pos + 1 + SizeBits(w), len)));
      } else if back >= |hist| {
        // zc[i - (1 + back)] is undefined: the source throws.
        st := None;
      } else {
        st := Some((pos + 1 + SizeBits(w) + RefBits(w), got + Padded(hist[|hist| - 1 - back], |got|, len)));
      }
    }

    /**
     * The sub-block loop of fillZCache: reads blocks from bit p until w
     * bits of content are known.  A block that starts past the end of the
     * buffer is the point from which the source loops for ever.
     */
    method DecodeBlocksAt(p: nat, w: nat, hist: seq<seq<bool>>) returns (d: Option<Decoded>)
      requires SizeBits(w) <= 31
      ensures d == DecodeBlocks(Bits(), p, [], w, hist)
    {
      var pos, got := p, [];
      while |got| < w
        invariant DecodeBlocks(Bits(), pos, got, w, hist) == DecodeBlocks(Bits(), p, [], w, hist)
        decreases 8 * rawData.Length - pos
      {
        if pos >= 8 * rawData.Length {
          return None;
        }
        var st := ReadBlock(pos, got, w, hist);
        if st.None? {
          return None;
        }
        pos, got := st.value.0, st.value.1;
      }
      d := Some(Decoded(got, pos));
    }

    /** The line at bit p: flag 0 and w literal bits, or flag 1 and sub-blocks. */
    method DecodeLineAt(p: nat, w: nat, hist: seq<seq<bool>>) returns (d: Option<Decoded>)
      requires SizeBits(w) <= 31
      ensures d == DecodeLine(Bits(), p, w, hist)
    {
      var lineType := ReadAt(1, p);
      BitPadded(Bits(), p);
      if lineType == 0 {
        d := Some(Decoded(Padded(Bits(), p + 1, w), p + 1 + w));
      } else {
        d := DecodeBlocksAt(p + 1, w, hist);
      }
    }

    /** The cache line that follows the lines zc. */
    method NextLineAt(w: nat, zc: seq<CacheLine>) returns (l: Option<CacheLine>)
      requires zc != [] && SizeBits(w) <= 31
      ensures l == NextLine(Bits(), w, zc)
    {
      var d := DecodeLineAt(End(zc[|zc| - 1]), w, Contents(zc));
      if d.None? {
        l := None;
      } else {
        l := Some(CacheLine(End(zc[|zc| - 1]), d.value.end - End(zc[|zc| - 1]), d.value.content));
      }
    }

    /**
     * fillZCache's loop: adds the next line to zc until the fill stops;
     * ok is false where the next line cannot be decoded.
     */
    method GrowLines(w: nat, zc0: seq<CacheLine>, until: Until) returns (zc: seq<CacheLine>, ok: bool)
      requires zc0 != [] && SizeBits(w) <= 31
      ensures Grown(Bits(), w, zc0, zc, until, offset, ok)
    {
      zc := zc0;
      while !Stops(zc, until, offset)
        invariant Growing(Bits(), w, zc0, zc, until, offset)
        decreases Remaining(zc, until, offset)
      {
        var next := NextLineAt(w, zc);
        if next.None? {
          return zc, false;
        }
        GrowingStep(Bits(), w, zc0, zc, until, offset, next.value);
        RemainingDrops(Bits(), w, zc, until, offset, next.value);
        zc := zc + [next.value];
      }
      ok := true;
    }

    /**
     * fillZCache(w, start, until): the cached lines of the zone at
     * `start` (line 0 when there are none) grow until the fill stops.  A
     * fill past the cursor that stops moves the cursor to the end of the
     * last line.
     */
    method FillZCache(w: nat, start: nat, until: Until) returns (ok: bool)
      requires SizeBits(w) <= 31
      modifies this
      ensures start in zCache && zCache == old(zCache)[start := zCache[start]]
      ensures Grown(Bits(), w, Initial(old(zCache), Bits(), start, w), zCache[start], until, old(offset), ok)
      ensures var zc := zCache[start];
        if until == PastCursor && ok
        then offset == End(zc[|zc| - 1]) && maxOffset == Max(Max(old(maxOffset), old(offset)), offset)
        else offset == old(offset) && maxOffset == old(maxOffset)
    {
      var zc := Initial(zCache, Bits(), start, w);
      zc, ok := GrowLines(w, zc, until);
      zCache := zCache[start := zc];
      if until == PastCursor && ok {
        SetOffset(zc[|zc| - 1].offset + zc[|zc| - 1].zSize);
      }
    }

    // -------------------------------------------------------------------
    // Compressed zones

    /**
     * The zone at `start` holds the values vs, laid out as the lines ls
     * after line 0; the cursor is at the zone's end; what the cache holds
     * of the zone is its first lines.
     */
    ghost predicate Zone(start: nat, w: nat, vs: seq<seq<bool>>, ls: seq<seq<bool>>)
      reads this, rawData
    {
      Laid(Bits(), start, w, vs, ls) && offset == ZoneEnd(start, w, ls) && CacheFits(zCache, start, w, vs, ls, |vs|)
    }

    /**
     * A reader of the zone at `start` that is at the start of line j,
     * with no line after j in the cache.
     */
    ghost predicate Reading(start: nat, w: nat, vs: seq<seq<bool>>, ls: seq<seq<bool>>, j: nat)
      reads this, rawData
    {
      Laid(Bits(), start, w, vs, ls) && j < |vs| && offset == LineStart(start, w, ls, j)
      && CacheFits(zCache, start, w, vs, ls, j + 1)
    }

    /** Writes the bits of line from bit `at`, one bit at a time. */
    method WriteBits(line: seq<bool>, at: nat)
      requires at + |line| <= 8 * rawData.Length
      modifies rawData
      ensures Bits() == Splice(old(Bits()), at, line)
    {
      var i := 0;
      while i < |line|
        invariant i <= |line| && Bits() == Splice(old(Bits()), at, line[..i])
      {
        OneBitOf(line[i]);
        WriteAt(if line[i] then 1 else 0, 1, at + i);
        SpliceNext(old(Bits()), at, line[..i], [line[i]], at + i);
        assert line[..i] + [line[i]] == line[..i + 1];
        i := i + 1;
      }
      assert line[..i] == line;
    }

    /** append of the winning line: its bits at the cursor, which moves past them. */
    method AppendBits(line: seq<bool>)
      requires 0 < |line| && offset + |line| <= 8 * rawData.Length
      modifies this, rawData
      ensures Bits() == Splice(old(Bits()), old(offset), line)
      ensures offset == old(offset) + |line| && maxOffset == Max(old(maxOffset), offset) && zCache == old(zCache)
    {
      var at := offset;
      SetOffset(offset + |line|);
      WriteBits(line, at);
    }

    /**
     * The part of zPush after its two early returns, for the w bits vb of
     * the value: the zone is decoded up to the cursor, the search finds
     * the shortest line for vb against the zone's lines, and the line is
     * appended.  None where the fill throws or does not end (nothing is
     * appended then).  On a zone laid out by earlier pushes, the push
     * always goes through and the zone then holds vb as well.
     */
    method ZCompress(vb: seq<bool>, w: nat, start: nat, ghost vs: seq<seq<bool>>, ghost ls: seq<seq<bool>>)
      returns (pushed: Option<seq<bool>>)
      requires |vb| == w && 0 < w && SizeBits(w) <= 31
      requires offset + w + 1 <= 8 * rawData.Length
      modifies this, rawData
      ensures start in zCache && zCache == old(zCache)[start := zCache[start]]
      ensures Grown(old(Bits()), w, Initial(old(zCache), old(Bits()), start, w), zCache[start], ToCursor, old(offset), pushed.Some?)
      ensures pushed.None? ==> Bits() == old(Bits()) && offset == old(offset) && maxOffset == old(maxOffset)
      ensures pushed.Some? ==>
        var line := pushed.value;
        (line == [false] + vb || (0 < |line| < 1 + w && line[0]))
        && Decodes(line, vb, w, Contents(zCache[start]))
        && Bits() == Splice(old(Bits()), old(offset), line)
        && offset == old(offset) + |line| && maxOffset == Max(old(maxOffset), offset)
      ensures old(Zone(start, w, vs, ls)) ==> pushed.Some? && Zone(start, w, vs + [vb], ls + [pushed.value])
      ensures pushed.Some? && ShouldBeCompressed(w) && Repeated(vb, Contents(zCache[start]), w) ==>
        pushed.value[0] && |pushed.value| < 1 + w
      ensures ShouldBeCompressed(w) && old(Zone(start, w, vs, ls)) && vs != [] && vs[|vs| - 1] == vb ==>
        pushed.Some? && pushed.value[0] && |pushed.value| < 1 + w
    {
      ghost var bits0, cache0 := Bits(), zCache;
      ghost var zoned := Zone(start, w, vs, ls);
      var ok := FillZCache(w, start, ToCursor);
      if zoned {
        ZoneFills(bits0, cache0, old(offset), start, w, vs, ls, zCache[start], ok);
        if vs != [] && vs[|vs| - 1] == vb {
          NewestRepeated(vb, Contents(zCache[start]), w);
        }
      }
      if !ok {
        return None;
      }
      var line := SearchLine(vb, Contents(zCache[start]), w, true);
      AppendBits(line);
      pushed := Some(line);
      if zoned {
        PushedZone(bits0, cache0, old(offset), start, w, vs, ls, zCache[start], line, vb);
      }
    }

    /**
     * zPush(value, w, start) for a number: a plain w-bit append when w is
     * not compressed or the zone is still empty (its start is the cursor);
     * otherwise the compressed push of the value's w bits.  The first push
     * of an empty zone starts a laid-out zone, and every later push keeps
     * it laid out with the value added.
     */
    method ZPush(value: nat, w: nat, start: nat, ghost vs: seq<seq<bool>>, ghost ls: seq<seq<bool>>)
      returns (pushed: Option<seq<bool>>)
      requires 0 < w <= 32 && value < Pow2(w)
      requires offset + (if !ShouldBeCompressed(w) || start == offset then w else w + 1) <= 8 * rawData.Length
      modifies this, rawData
      ensures pushed.Some? ==> 0 < |pushed.value| <= w + 1 && old(offset) + |pushed.value| <= 8 * rawData.Length
      ensures pushed.Some? ==> Bits() == Splice(old(Bits()), old(offset), pushed.value)
                               && offset == old(offset) + |pushed.value| && maxOffset == Max(old(maxOffset), offset)
      ensures pushed.None? ==> Bits() == old(Bits()) && offset == old(offset) && maxOffset == old(maxOffset)
      ensures !ShouldBeCompressed(w) || start == old(offset) ==> pushed == Some(ToBits(value, w)) && zCache == old(zCache)
      ensures ShouldBeCompressed(w) && start != old(offset) ==>
        start in zCache && zCache == old(zCache)[start := zCache[start]]
        && Grown(old(Bits()), w, Initial(old(zCache), old(Bits()), start, w), zCache[start], ToCursor, old(offset), pushed.Some?)
        && (pushed.Some? ==> Decodes(pushed.value, ToBits(value, w), w, Contents(zCache[start]))
                             && (pushed.value == [false] + ToBits(value, w) || pushed.value[0]))
      ensures ShouldBeCompressed(w) && start == old(offset) && (start !in old(zCache) || old(zCache[start]) == []) ==>
        Zone(start, w, [ToBits(value, w)], [])
      ensures ShouldBeCompressed(w) && start != old(offset) && old(Zone(start, w, vs, ls)) ==>
        pushed.Some? && Zone(start, w, vs + [ToBits(value, w)], ls + [pushed.value])
      ensures ShouldBeCompressed(w) && start != old(offset) && pushed.Some? && Repeated(ToBits(value, w), Contents(zCache[start]), w) ==>
        pushed.value[0] && |pushed.value| < 1 + w
      ensures ShouldBeCompressed(w) && start != old(offset) && old(Zone(start, w, vs, ls)) && vs != [] && vs[|vs| - 1] == ToBits(value, w) ==>
        pushed.Some? && pushed.value[0] && |pushed.value| < 1 + w
    {
      if !ShouldBeCompressed(w) || start == offset {
        ghost var bits0 := Bits();
        Append(value, Some(w));
        if ShouldBeCompressed(w) {
          ZoneStarts(bits0, start, w, ToBits(value, w));
        }
        return Some(ToBits(value, w));
      }
      // The number is wrapped in a BitArray of w bits: what the search reads are its w bits.
      pushed := ZCompress(ToBits(value, w), w, start, vs, ls);
    }

    /**
     * zPush(value, w, start) for a BitArray value.  The plain append
     * copies w bits from the value's cursor, which moves past them; the
     * compressed push reads the value's first w bits and leaves its
     * cursor at w.
     */
    method ZPushArray(value: BitArray, w: nat, start: nat, ghost vs: seq<seq<bool>>, ghost ls: seq<seq<bool>>)
      returns (pushed: Option<seq<bool>>)
      requires value.rawData != rawData
      requires 0 < w && SizeBits(w) <= 31
      requires offset + (if !ShouldBeCompressed(w) || start == offset then w else w + 1) <= 8 * rawData.Length
      modifies this, rawData, value
      ensures pushed.Some? ==> 0 < |pushed.value| <= w + 1 && old(offset) + |pushed.value| <= 8 * rawData.Length
      ensures pushed.Some? ==> Bits() == Splice(old(Bits()), old(offset), pushed.value)
                               && offset == old(offset) + |pushed.value| && maxOffset == Max(old(maxOffset), offset)
      ensures pushed.None? ==> Bits() == old(Bits()) && offset == old(offset) && maxOffset == old(maxOffset)
      ensures !ShouldBeCompressed(w) || start == old(offset) ==>
        pushed == Some(Padded(old(value.Bits()), old(value.offset), w)) && zCache == old(zCache)
        && value.offset == old(value.offset) + w && value.maxOffset == Max(old(value.maxOffset), value.offset)
      ensures ShouldBeCompressed(w) && start != old(offset) ==>
        start in zCache && zCache == old(zCache)[start := zCache[start]]
        && Grown(old(Bits()), w, Initial(old(zCache), old(Bits()), start, w), zCache[start], ToCursor, old(offset), pushed.Some?)
        && (pushed.Some? ==> Decodes(pushed.value, Padded(value.Bits(), 0, w), w, Contents(zCache[start]))
                             && value.offset == w && value.maxOffset == Max(Max(old(value.maxOffset), old(value.offset)), w))
      ensures ShouldBeCompressed(w) && start == old(offset) && (start !in old(zCache) || old(zCache[start]) == []) ==>
        Zone(start, w, [Padded(value.Bits(), old(value.offset), w)], [])
      ensures ShouldBeCompressed(w) && start != old(offset) && old(Zone(start, w, vs, ls)) ==>
        pushed.Some? && Zone(start, w, vs + [Padded(value.Bits(), 0, w)], ls + [pushed.value])
      ensures ShouldBeCompressed(w) && start != old(offset) && pushed.Some? && Repeated(Padded(value.Bits(), 0, w), Contents(zCache[start]), w) ==>
        pushed.value[0] && |pushed.value| < 1 + w
      ensures ShouldBeCompressed(w) && start != old(offset) && old(Zone(start, w, vs, ls)) && vs != [] && vs[|vs| - 1] == Padded(value.Bits(), 0, w) ==>
        pushed.Some? && pushed.value[0] && |pushed.value| < 1 + w
      ensures value.Bits() == old(value.Bits()) && value.zCache == old(value.zCache)
    {
      if !ShouldBeCompressed(w) || start == offset {
        ghost var bits0 := Bits();
        pushed := Some(Padded(value.Bits(), value.offset, w));
        AppendFrom(value, Some(w));
        if ShouldBeCompressed(w) {
          ZoneStarts(bits0, start, w, pushed.value);
        }
        return;
      }
      pushed := ZCompress(Padded(value.Bits(), 0, w), w, start, vs, ls);
      if pushed.Some? {
        // The default line appends the value from its start: its cursor ends at w.
        value.ResetOffset();
        value.SetOffset(w);
      }
    }

    /**
     * zGet(w, start, zLine), with None for the default NaN: get() when w
     * is not compressed (GetLine, as written, so a negative zLine reads
     * past the cursor), a read through the cache otherwise (ZRead).  In a
     * plain zone, line n reads value n and a reader at line j reads value
     * j and moves to line j + 1.
     */
    method ZGet(w: nat, start: nat, zLine: Option<int>, ghost vs: seq<seq<bool>>, ghost ls: seq<seq<bool>>, ghost j: nat)
      returns (r: Option<ZValue>)
      requires 0 < w && (if ShouldBeCompressed(w) then SizeBits(w) <= 31 else w <= 31)
      modifies this
      ensures !ShouldBeCompressed(w) ==> zCache == old(zCache) && r.Some? && r.value.Number?
      ensures !ShouldBeCompressed(w) && zLine.Some? ==> offset == old(offset) && maxOffset == old(maxOffset)
      ensures !ShouldBeCompressed(w) && zLine.Some? && zLine.value >= 0 ==>
        r == Some(Number(ValueOf(Padded(Bits(), LineAt(start, zLine.value, w), w))))
      ensures !ShouldBeCompressed(w) && zLine.Some? && zLine.value < 0 ==>
        r == Some(Number(ValueOf(Padded(Bits(), LineAt(old(offset), -zLine.value, w), w))))
        && LineAt(old(offset), -zLine.value, w) >= old(offset) + w
      ensures !ShouldBeCompressed(w) && zLine.None? ==>
        r == Some(Number(ValueOf(Padded(Bits(), old(offset), w))))
        && offset == old(offset) + w && maxOffset == Max(old(maxOffset), offset)
      ensures !ShouldBeCompressed(w) && PlainZone(Bits(), start, w, vs) ==>
        (zLine.Some? && 0 <= zLine.value < |vs| ==> r == Some(Number(ValueOf(vs[zLine.value]))))
        && (zLine.None? && j < |vs| && old(offset) == LineAt(start, j, w) ==>
              r == Some(Number(ValueOf(vs[j]))) && offset == LineAt(start, j + 1, w))
      ensures ShouldBeCompressed(w) ==> start in zCache && zCache == old(zCache)[start := zCache[start]]
      ensures ShouldBeCompressed(w) ==> r.Some? ==> r.value.Content?
      ensures ShouldBeCompressed(w) && zLine.None? && old(Reading(start, w, vs, ls, j)) ==>
        r == Some(Content(vs[j])) && offset == LineStart(start, w, ls, j + 1)
        && (j + 1 < |vs| ==> Reading(start, w, vs, ls, j + 1))
      ensures ShouldBeCompressed(w) && zLine.Some? && 0 < zLine.value < |vs| && Laid(Bits(), start, w, vs, ls)
              && old(CacheFits(zCache, start, w, vs, ls, |vs|)) ==>
        r == Some(Content(vs[zLine.value]))
      ensures ShouldBeCompressed(w) && zLine == Some(0) && Laid(Bits(), start, w, vs, ls) && old(CacheFits(zCache, start, w, vs, ls, |vs|)) ==>
        r.Some? ==> r == Some(Content(vs[0]))
      ensures ShouldBeCompressed(w) && zLine == Some(0) && old(Zone(start, w, vs, ls)) ==>
        r == Some(Content(vs[0]))
      ensures ShouldBeCompressed(w) && zLine.Some? && -|vs| <= zLine.value < 0 && old(Zone(start, w, vs, ls)) ==>
        r == Some(Content(vs[|vs| + zLine.value]))
    {
      if !ShouldBeCompressed(w) {
        ghost var cursor := offset;
        var v := GetLine(w, start, zLine);
        r := Some(Number(v));
        if PlainZone(Bits(), start, w, vs) {
          PlainZoneRead(Bits(), start, w, vs, cursor, zLine, j);
        }
      } else {
        r := ZRead(w, start, zLine, vs, ls, j);
      }
    }

    /**
     * zGet for a width that is not compressed, corrected: get(w) at line
     * zLine of the zone for zLine >= 0, at the line -zLine back from the
     * cursor for zLine < 0 (None when that is before the first bit), and
     * at the cursor, which moves, with no line given.  In a plain zone,
     * line n reads value n, line -k reads the value k from the end when
     * the cursor is at the zone's end, and a reader at line j reads value
     * j and moves to line j + 1.
     */
    method PlainRead(w: nat, start: nat, zLine: Option<int>, ghost vs: seq<seq<bool>>, ghost j: nat) returns (v: Option<nat>)
      requires w <= 31
      modifies this
      ensures zCache == old(zCache)
      ensures zLine.Some? ==> offset == old(offset) && maxOffset == old(maxOffset)
      ensures zLine.Some? && zLine.value >= 0 ==> v == Some(ValueOf(Padded(Bits(), LineAt(start, zLine.value, w), w)))
      ensures zLine.Some? && zLine.value < 0 ==>
        v == if -zLine.value * w <= old(offset) then Some(ValueOf(Padded(Bits(), old(offset) - -zLine.value * w, w))) else None
      ensures zLine.None? ==> v == Some(ValueOf(Padded(Bits(), old(offset), w))) && offset == old(offset) + w
                              && maxOffset == Max(old(maxOffset), offset)
      ensures PlainZone(Bits(), start, w, vs) ==>
        (zLine.Some? && 0 <= zLine.value < |vs| ==> v == Some(ValueOf(vs[zLine.value])))
        && (zLine.Some? && -|vs| <= zLine.value < 0 && old(offset) == LineAt(start, |vs|, w) ==>
              v == Some(ValueOf(vs[|vs| + zLine.value])))
        && (zLine.None? && j < |vs| && old(offset) == LineAt(start, j, w) ==>
              v == Some(ValueOf(vs[j])) && offset == LineAt(start, j + 1, w))
    {
      ghost var cursor := offset;
      v := PlainReadAt(w, start, zLine);
      if PlainZone(Bits(), start, w, vs) {
        PlainZoneRead(Bits(), start, w, vs, cursor, zLine, j);
      }
    }

    /** The reads of PlainRead, by position. */
    method PlainReadAt(w: nat, start: nat, zLine: Option<int>) returns (v: Option<nat>)
      requires w <= 31
      modifies this
      ensures zCache == old(zCache)
      ensures zLine.Some? ==> offset == old(offset) && maxOffset == old(maxOffset)
      ensures zLine.Some? && zLine.value >= 0 ==> v == Some(ValueOf(Padded(Bits(), LineAt(start, zLine.value, w), w)))
      ensures zLine.Some? && zLine.value < 0 ==>
        v == if -zLine.value * w <= old(offset) then Some(ValueOf(Padded(Bits(), old(offset) - -zLine.value * w, w))) else None
      ensures zLine.None? ==> v == Some(ValueOf(Padded(Bits(), old(offset), w))) && offset == old(offset) + w
                              && maxOffset == Max(old(maxOffset), offset)
    {
      if zLine.Some? && zLine.value >= 0 {
        var got := Get(w, Some(LineAt(start, zLine.value, w)));
        v := Some(got);
      } else if zLine.Some? {
        if -zLine.value * w <= offset {
          var got := Get(w, Some(offset - -zLine.value * w));
          v := Some(got);
        } else {
          v := None;
        }
      } else {
        var got := Get(w, None);
        v := Some(got);
      }
    }

    /**
     * zGet for a width that is not compressed, as written: get(w) at line
     * zLine of the zone for zLine >= 0, at offset - zLine * w for
     * zLine < 0 (that is -zLine lines PAST the cursor), and at the cursor,
     * which moves, with no line given.  The line read for zLine < 0 lies
     * wholly after the cursor (BackReadAsWritten shows one input).
     */
    method GetLine(w: nat, start: nat, zLine: Option<int>) returns (v: nat)
      requires w <= 31
      modifies this
      ensures zCache == old(zCache)
      ensures zLine.Some? ==> offset == old(offset) && maxOffset == old(maxOffset)
      ensures zLine.Some? && zLine.value >= 0 ==> v == ValueOf(Padded(Bits(), LineAt(start, zLine.value, w), w))
      ensures zLine.Some? && zLine.value < 0 ==> v == ValueOf(Padded(Bits(), LineAt(old(offset), -zLine.value, w), w))
                                                 && LineAt(old(offset), -zLine.value, w) >= old(offset) + w
      ensures zLine.None? ==> v == ValueOf(Padded(Bits(), old(offset), w)) && offset == old(offset) + w
                              && maxOffset == Max(old(maxOffset), offset)
    {
      if zLine.Some? && zLine.value >= 0 {
        v := Get(w, Some(LineAt(start, zLine.value, w)));
      } else if zLine.Some? {
        MulLe(1, -zLine.value, w);
        v := Get(w, Some(LineAt(offset, -zLine.value, w)));
      } else {
        v := Get(w, None);
      }
    }

    /**
     * zGet for a compressed width: the cache is filled (past the cursor
     * with no line given, to line zLine for zLine > 0, to the cursor
     * otherwise), then the content of the last cached line, of line zLine
     * or of the line -zLine from the end is returned; None where the
     * source throws (no such line, or a line that does not decode) or
     * does not end.  A reader at the start of line j of a laid-out zone
     * reads value j and ends at the start of line j + 1; line n reads
     * value n (line 0 of a laid-out zone too); line -k reads the value k
     * from the end of a zone whose cursor is at its end.
     */
    method ZRead(w: nat, start: nat, zLine: Option<int>, ghost vs: seq<seq<bool>>, ghost ls: seq<seq<bool>>, ghost j: nat)
      returns (r: Option<ZValue>)
      requires 0 < w && SizeBits(w) <= 31
      modifies this
      ensures start in zCache && zCache == old(zCache)[start := zCache[start]]
      ensures var zc, until := zCache[start], FillFor(zLine);
        var k := CacheIndex(|zc|, zLine);
        (Grown(Bits(), w, Initial(old(zCache), Bits(), start, w), zc, until, old(offset), true)
         && r == (if 0 <= k < |zc| then Some(Content(zc[k].content)) else None)
         && if zLine.None?
            then offset == End(zc[|zc| - 1]) && maxOffset == Max(Max(old(maxOffset), old(offset)), offset)
            else offset == old(offset) && maxOffset == old(maxOffset))
        || (Grown(Bits(), w, Initial(old(zCache), Bits(), start, w), zc, until, old(offset), false)
            && r == None && offset == old(offset) && maxOffset == old(maxOffset))
      ensures zLine.None? && old(Reading(start, w, vs, ls, j)) ==>
        r == Some(Content(vs[j])) && offset == LineStart(start, w, ls, j + 1)
        && (j + 1 < |vs| ==> Reading(start, w, vs, ls, j + 1))
      ensures zLine.Some? && 0 < zLine.value < |vs| && Laid(Bits(), start, w, vs, ls)
              && old(CacheFits(zCache, start, w, vs, ls, |vs|)) ==>
        r == Some(Content(vs[zLine.value]))
      ensures zLine == Some(0) && Laid(Bits(), start, w, vs, ls) && old(CacheFits(zCache, start, w, vs, ls, |vs|)) ==>
        r.Some? ==> r == Some(Content(vs[0]))
      ensures zLine == Some(0) && old(Zone(start, w, vs, ls)) ==> r == Some(Content(vs[0]))
      ensures zLine.Some? && -|vs| <= zLine.value < 0 && old(Zone(start, w, vs, ls)) ==>
        r == Some(Content(vs[|vs| + zLine.value]))
    {
      ghost var cache0, cursor0 := zCache, offset;
      var ok := FillZCache(w, start, FillFor(zLine));
      var zc := zCache[start];
      var k := CacheIndex(|zc|, zLine);
      if ok && 0 <= k < |zc| {
        r := Some(Content(zc[k].content));
      } else {
        r := None;
      }
      if Laid(Bits(), start, w, vs, ls) {
        ReadFill(Bits(), cache0, cursor0, start, w, vs, ls, j, FillFor(zLine), zc, ok);
      }
    }
}
}
