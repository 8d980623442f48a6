/**
 * Bit strings and the arithmetic that the byte-level codec relies on.
 *
 * A buffer of bytes is viewed as a string of bits, most significant bit
 * first within each byte.  A w-bit field holding the number x is the
 * string ToBits(x, w); ValueOf reads a string back as an unsigned number.
 */
module Bits {

  /** The elements of `rawData`: unsigned 8-bit cells. */
  newtype byte = x: int | 0 <= x < 256

  /**
   * Half(x), by repeated subtraction: definitions that other proofs unfold
   * stay within linear arithmetic.
   */
  function Half(x: nat): (r: nat)
    ensures r + r <= x <= r + r + 1
  {
    if x < 2 then 0 else 1 + Half(x - 2)
  }

  /** x % 2 == 1, by repeated subtraction (like Half). */
  predicate Odd(x: nat)
  {
    if x < 2 then x == 1 else Odd(x - 2)
  }

  lemma {:induction false} OddHalf(x: nat)
    ensures Odd(x) <==> x == Half(x) + Half(x) + 1
  {
    if x >= 2 {
      OddHalf(x - 2);
    }
  }

  lemma HalfIsDiv(x: nat)
    ensures Half(x) == x / 2 && (Odd(x) <==> x % 2 == 1)
  {
  }

  /** Halving undoes doubling, and the parity is the added bit. */
  lemma HalfOdd(y: nat, d: bool)
    ensures Half(2 * y + (if d then 1 else 0)) == y
    ensures Odd(2 * y + (if d then 1 else 0)) == d
  {
    OddHalf(2 * y + (if d then 1 else 0));
  }

  function Pow2(n: nat): (r: nat)
    ensures r >= 1
  {
    if n == 0 then 1 else 2 * Pow2(n - 1)
  }

  /** The w low bits of x, most significant first. */
  function ToBits(x: nat, w: nat): (s: seq<bool>)
    ensures |s| == w
    decreases w, x
  {
    if w == 0 then [] else ToBits(Half(x), w - 1) + [Odd(x)]
  }

  /** The unsigned number whose binary digits, most significant first, are s. */
  function ValueOf(s: seq<bool>): (v: nat)
    ensures v < Pow2(|s|)
  {
    if s == [] then 0 else 2 * ValueOf(s[..|s| - 1]) + (if s[|s| - 1] then 1 else 0)
  }

  function Zeros(n: nat): (s: seq<bool>)
    ensures |s| == n && forall i :: 0 <= i < n ==> !s[i]
  {
    seq(n, _ => false)
  }

  /** n bits of s starting at `from`, reading false past the end of s. */
  function Padded(s: seq<bool>, from: nat, n: nat): (r: seq<bool>)
    ensures |r| == n
  {
    seq(n, i requires 0 <= i < n => from + i < |s| && s[from + i])
  }

  /** s with the stretch that starts at `at` overwritten by t. */
  function Splice<T>(s: seq<T>, at: nat, t: seq<T>): (r: seq<T>)
    requires at + |t| <= |s|
    ensures |r| == |s|
    ensures forall i :: 0 <= i < |s| ==> r[i] == if at <= i < at + |t| then t[i - at] else s[i]
  {
    s[..at] + t + s[at + |t|..]
  }

  /** The bits of a byte buffer, most significant bit first within each byte. */
  function BitsOf(data: seq<byte>): (s: seq<bool>)
    ensures |s| == 8 * |data|
  {
    seq(8 * |data|, p requires 0 <= p < 8 * |data| => ToBits(data[p / 8] as nat, 8)[p % 8])
  }

  /** x >>> k: x shifted right by k bits. */
  function Shr(x: nat, k: nat): nat
    decreases k, x
  {
    if k == 0 then x else Shr(Half(x), k - 1)
  }

  /** x << k: x shifted left by k bits. */
  function Shl(x: nat, k: nat): nat
    decreases k, x
  {
    if k == 0 then x else 2 * Shl(x, k - 1)
  }

  lemma {:induction false} ShlMul(x: nat, k: nat)
    ensures Shl(x, k) == x * Pow2(k)
  {
    if k > 0 {
      ShlMul(x, k - 1);
      MulDouble(x, Pow2(k - 1));
    }
  }

  /** x & (2^k - 1): the k low bits of x. */
  function Low(x: nat, k: nat): (r: nat)
    ensures r < Pow2(k)
    decreases k, x
  {
    if k == 0 then 0 else 2 * Low(Half(x), k - 1) + (if Odd(x) then 1 else 0)
  }

  // ---------------------------------------------------------------------
  // Arithmetic

  lemma MulLe(a: int, b: int, c: nat)
    requires a <= b
    ensures a * c <= b * c
  {
  }

  lemma MulDouble(a: int, p: int)
    ensures a * (2 * p) == 2 * (a * p)
  {
  }

  lemma Distrib(h: int, p: int, c: int, q: int)
    ensures (h * p + c) * q == h * (p * q) + c * q
  {
  }

  lemma {:induction false} Pow2Add(a: nat, b: nat)
    ensures Pow2(a + b) == Pow2(a) * Pow2(b)
  {
    if a > 0 {
      Pow2Add(a - 1, b);
      assert Pow2(a + b) == 2 * Pow2(a - 1 + b);
    }
  }

  lemma {:induction false} Pow2Mono(a: nat, b: nat)
    requires a <= b
    ensures Pow2(a) <= Pow2(b)
  {
    if a < b {
      Pow2Mono(a, b - 1);
    }
  }

  /** A number below 2^p shifted left by k, plus a number below 2^k, is below 2^(p+k). */
  lemma CombineBound(x: nat, p: nat, l: nat, k: nat)
    requires x < Pow2(p) && l < Pow2(k)
    ensures 0 <= x * Pow2(k) && x * Pow2(k) + l < Pow2(p + k)
  {
    MulLe(x, Pow2(p) - 1, Pow2(k));
    Pow2Add(p, k);
  }

  // ---------------------------------------------------------------------
  // Shifts and masks

  /** x splits into its bits above k and its k low bits. */
  lemma {:induction false} ShrLow(x: nat, k: nat)
    ensures x == Shr(x, k) * Pow2(k) + Low(x, k)
  {
    if k > 0 {
      ShrLow(Half(x), k - 1);
      MulDouble(Shr(Half(x), k - 1), Pow2(k - 1));
      OddHalf(x);
    }
  }

  /** ... and that split is the only one. */
  lemma {:induction false} ShrLowUnique(x: nat, k: nat, q: nat, r: nat)
    requires r < Pow2(k) && x == q * Pow2(k) + r
    ensures Shr(x, k) == q && Low(x, k) == r
  {
    if k > 0 {
      MulDouble(q, Pow2(k - 1));
      OddHalf(x);
      OddHalf(r);
      ShrLowUnique(Half(x), k - 1, q, Half(r));
    }
  }

  lemma {:induction false} ShrBound(x: nat, n: nat, k: nat)
    requires x < Pow2(n + k)
    ensures Shr(x, k) < Pow2(n)
  {
    if k > 0 {
      ShrBound(Half(x), n, k - 1);
    }
  }

  lemma {:induction false} ShrSmall(x: nat, k: nat)
    requires x < Pow2(k)
    ensures Shr(x, k) == 0 && Low(x, k) == x
  {
    ShrLowUnique(x, k, 0, x);
  }

  /** Masking to a bits and then to b <= a bits is masking to b bits. */
  lemma {:induction false} LowLow(x: nat, a: nat, b: nat)
    requires b <= a
    ensures Low(Low(x, a), b) == Low(x, b)
  {
    if b > 0 {
      LowLow(Half(x), a - 1, b - 1);
      HalfOdd(Low(Half(x), a - 1), Odd(x));
    }
  }

  lemma {:induction false} ShrShr(x: nat, a: nat, b: nat)
    ensures Shr(Shr(x, a), b) == Shr(x, a + b)
  {
    if a > 0 {
      ShrShr(Half(x), a - 1, b);
    }
  }

  // ---------------------------------------------------------------------
  // Bit strings and numbers

  /**
   * The top n bits of an (n + k)-bit field hold the value shifted right by
   * k bits, the low k bits its k low bits.
   */
  lemma {:induction false} ToBitsSplit(x: nat, n: nat, k: nat)
    ensures ToBits(x, n + k) == ToBits(Shr(x, k), n) + ToBits(Low(x, k), k)
  {
    if k > 0 {
      ToBitsSplit(Half(x), n, k - 1);
      HalfOdd(Low(Half(x), k - 1), Odd(x));
      ConcatAssoc(ToBits(Shr(Half(x), k - 1), n), ToBits(Low(Half(x), k - 1), k - 1), [Odd(x)]);
    }
  }

  lemma {:induction false} ValueOfToBits(x: nat, w: nat)
    ensures ValueOf(ToBits(x, w)) == Low(x, w)
  {
    if w > 0 {
      var s := ToBits(x, w);
      assert s[..w - 1] == ToBits(Half(x), w - 1);
      ValueOfToBits(Half(x), w - 1);
    }
  }

  lemma {:induction false} ToBitsValueOf(s: seq<bool>)
    ensures ToBits(ValueOf(s), |s|) == s
  {
    if s != [] {
      var s' := s[..|s| - 1];
      ToBitsValueOf(s');
      HalfOdd(ValueOf(s'), s[|s| - 1]);
      assert s == s' + [s[|s| - 1]];
    }
  }

  /** A value below 2^w is stored exactly by ToBits. */
  lemma ValueOfToBitsExact(x: nat, w: nat)
    requires x < Pow2(w)
    ensures ValueOf(ToBits(x, w)) == x
  {
    ValueOfToBits(x, w);
    ShrSmall(x, w);
  }

  lemma {:induction false} ValueOfAppend(a: seq<bool>, b: seq<bool>)
    ensures ValueOf(a + b) == ValueOf(a) * Pow2(|b|) + ValueOf(b)
  {
    if b == [] {
      assert a + b == a;
    } else {
      var b', d := b[..|b| - 1], if b[|b| - 1] then 1 else 0;
      assert ValueOf(a + b) == 2 * ValueOf(a + b') + d by {
        assert (a + b)[..|a + b| - 1] == a + b';
      }
      ValueOfAppend(a, b');
      assert ValueOf(a) * Pow2(|b|) == 2 * (ValueOf(a) * Pow2(|b'|)) by {
        MulDouble(ValueOf(a), Pow2(|b'|));
      }
    }
  }

  lemma ValueOfInjective(s: seq<bool>, t: seq<bool>)
    requires |s| == |t| && ValueOf(s) == ValueOf(t)
    ensures s == t
  {
    ToBitsValueOf(s);
    ToBitsValueOf(t);
  }

  lemma {:induction false} ToBitsZero(w: nat)
    ensures ToBits(0, w) == Zeros(w)
  {
    if w > 0 {
      ToBitsZero(w - 1);
    }
  }

  // ---------------------------------------------------------------------
  // Bytes

  /** Reading n bits at bit s of a byte: keep the low 8 - s bits, then shift right. */
  lemma ReadFieldBits(b: nat, s: nat, n: nat, B: nat)
    requires s + n <= B
    ensures ToBits(b, B)[s..s + n] == ToBits(Shr(Low(b, B - s), B - s - n), n)
  {
    var a := B - s;
    var low := Low(b, a);
    var tH, tm, tl := ToBits(Shr(b, a), s), ToBits(Shr(low, a - n), n), ToBits(Low(low, a - n), a - n);
    assert ToBits(b, B) == tH + ToBits(low, a) by {
      ToBitsSplit(b, s, a);
    }
    assert ToBits(low, a) == tm + tl by {
      ToBitsSplit(low, n, a - n);
    }
    SliceMiddle(tH, tm, tl);
  }

  /**
   * The byte that set() stores when it writes an n-bit chunk at bit s of
   * `orig`, with avail = 8 - s: the bits above the window are kept, the
   * window is cleared, the bits below it are restored and the chunk is
   * shifted into place.  The three parts occupy disjoint bits, so the
   * bitwise ORs of the original are sums here.
   */
  function WriteField(orig: nat, avail: nat, n: nat, chunk: nat): nat
    requires n <= avail
  {
    Shl(Shr(orig, avail), avail) + Low(orig, avail - n) + Shl(chunk, avail - n)
  }

  lemma WriteFieldBits(orig: nat, s: nat, n: nat, chunk: nat, B: nat)
    requires orig < Pow2(B) && s + n <= B && chunk < Pow2(n)
    ensures WriteField(orig, B - s, n, chunk) < Pow2(B)
    ensures ToBits(WriteField(orig, B - s, n, chunk), B) == Splice(ToBits(orig, B), s, ToBits(chunk, n))
  {
    var a := B - s;
    WriteFieldBound(orig, s, n, chunk, B);
    WriteFieldParts(orig, s, n, chunk, B);
    OldByteParts(orig, s, n, B);
    SpliceParts(ToBits(Shr(orig, a), s), ToBits(Shr(Low(orig, a), a - n), n), ToBits(Low(orig, a - n), a - n), ToBits(chunk, n));
  }

  lemma WriteFieldBound(orig: nat, s: nat, n: nat, chunk: nat, B: nat)
    requires orig < Pow2(B) && s + n <= B && chunk < Pow2(n)
    ensures WriteField(orig, B - s, n, chunk) < Pow2(B)
  {
    WriteFieldValue(orig, s, n, chunk, B);
  }

  /** The written field is the kept high part, the chunk and the kept low part, side by side. */
  lemma WriteFieldParts(orig: nat, s: nat, n: nat, chunk: nat, B: nat)
    requires orig < Pow2(B) && s + n <= B && chunk < Pow2(n)
    ensures ToBits(WriteField(orig, B - s, n, chunk), B)
         == ToBits(Shr(orig, B - s), s) + ToBits(chunk, n) + ToBits(Low(orig, B - s - n), B - s - n)
  {
    WriteFieldValue(orig, s, n, chunk, B);
    NewByteParts(WriteField(orig, B - s, n, chunk), Shr(orig, B - s), chunk, Low(orig, B - s - n), s, n, B);
  }

  /** The value of the written byte: the three fields side by side, within B bits. */
  lemma WriteFieldValue(orig: nat, s: nat, n: nat, chunk: nat, B: nat)
    requires orig < Pow2(B) && s + n <= B && chunk < Pow2(n)
    ensures WriteField(orig, B - s, n, chunk)
         == (Shr(orig, B - s) * Pow2(n) + chunk) * Pow2(B - s - n) + Low(orig, B - s - n)
    ensures WriteField(orig, B - s, n, chunk) < Pow2(B)
  {
    var a := B - s;
    var H, L := Shr(orig, a), Low(orig, a - n);
    WriteFieldLayout(orig, s, n, chunk, B);
    ShrBound(orig, s, a);
    CombineBound(H, s, chunk, n);
    CombineBound(H * Pow2(n) + chunk, s + n, L, a - n);
  }

  lemma WriteFieldLayout(orig: nat, s: nat, n: nat, chunk: nat, B: nat)
    requires s + n <= B
    ensures WriteField(orig, B - s, n, chunk)
         == (Shr(orig, B - s) * Pow2(n) + chunk) * Pow2(B - s - n) + Low(orig, B - s - n)
  {
    ShlMul(Shr(orig, B - s), B - s);
    ShlMul(chunk, B - s - n);
    Pow2Add(n, B - s - n);
    Distrib(Shr(orig, B - s), Pow2(n), chunk, Pow2(B - s - n));
  }

  /** The bits of a byte assembled from three fields. */
  lemma NewByteParts(nb: nat, h: nat, c: nat, l: nat, s: nat, n: nat, B: nat)
    requires s + n <= B && c < Pow2(n) && l < Pow2(B - s - n)
    requires nb == (h * Pow2(n) + c) * Pow2(B - s - n) + l
    ensures ToBits(nb, B) == ToBits(h, s) + ToBits(c, n) + ToBits(l, B - s - n)
  {
    var X := h * Pow2(n) + c;
    ToBitsSplit(nb, s + n, B - s - n);
    ShrLowUnique(nb, B - s - n, X, l);
    ToBitsSplit(X, s, n);
    ShrLowUnique(X, n, h, c);
  }

  /** The bits of a byte cut into the same three fields. */
  lemma OldByteParts(orig: nat, s: nat, n: nat, B: nat)
    requires s + n <= B
    ensures ToBits(orig, B)
         == ToBits(Shr(orig, B - s), s) + ToBits(Shr(Low(orig, B - s), B - s - n), n) + ToBits(Low(orig, B - s - n), B - s - n)
  {
    var a := B - s;
    var low := Low(orig, a);
    var tH, tm, tl := ToBits(Shr(orig, a), s), ToBits(Shr(low, a - n), n), ToBits(Low(low, a - n), a - n);
    assert ToBits(orig, B) == tH + ToBits(low, a) by {
      ToBitsSplit(orig, s, a);
    }
    assert ToBits(low, a) == tm + tl by {
      ToBitsSplit(low, n, a - n);
    }
    LowLow(orig, a, a - n);
    ConcatAssoc(tH, tm, tl);
  }

  lemma EmptyConcat<T>(s: seq<T>)
    ensures s + [] == s && [] + s == s
  {
  }

  lemma ConcatAssoc<T>(x: seq<T>, y: seq<T>, z: seq<T>)
    ensures x + (y + z) == (x + y) + z
  {
  }

  lemma SliceMiddle<T>(x: seq<T>, y: seq<T>, z: seq<T>)
    ensures (x + (y + z))[|x|..|x| + |y|] == y
  {
    assert (x + (y + z))[|x|..] == y + z;
  }

  lemma SpliceParts<T>(a: seq<T>, m: seq<T>, c: seq<T>, t: seq<T>)
    requires |m| == |t|
    ensures Splice(a + m + c, |a|, t) == a + t + c
  {
    assert (a + m + c)[..|a|] == a;
    assert (a + m + c)[|a| + |t|..] == c;
  }

  lemma ByteOfBits(x: nat)
    requires x < 256
    ensures ValueOf(ToBits(x, 8)) == x
  {
    assert Pow2(8) == 256;
    ValueOfToBitsExact(x, 8);
  }

  /** Bit k of byte i is bit 8 * i + k of the buffer. */
  lemma ByteIndex(i: nat, k: nat)
    requires k < 8
    ensures (8 * i + k) / 8 == i && (8 * i + k) % 8 == k
  {
  }

  lemma BitsOfByte(data: seq<byte>, i: nat)
    requires i < |data|
    ensures BitsOf(data)[8 * i..8 * i + 8] == ToBits(data[i] as nat, 8)
  {
    var window := BitsOf(data)[8 * i..8 * i + 8];
    forall k | 0 <= k < 8
      ensures window[k] == ToBits(data[i] as nat, 8)[k]
    {
      BitAt(data, i, k);
    }
  }

  lemma BitAt(data: seq<byte>, i: nat, k: nat)
    requires i < |data| && k < 8
    ensures BitsOf(data)[8 * i + k] == ToBits(data[i] as nat, 8)[k]
  {
    var p := 8 * i + k;
    ByteIndex(i, k);
    assert BitsOf(data)[p] == ToBits(data[p / 8] as nat, 8)[p % 8];
  }

  lemma BitsOfUpdate(data: seq<byte>, i: nat, nb: byte)
    requires i < |data|
    ensures BitsOf(data[i := nb]) == Splice(BitsOf(data), 8 * i, ToBits(nb as nat, 8))
  {
    var after, spliced := BitsOf(data[i := nb]), Splice(BitsOf(data), 8 * i, ToBits(nb as nat, 8));
    forall p | 0 <= p < 8 * |data|
      ensures after[p] == spliced[p]
    {
      if 8 * i <= p < 8 * i + 8 {
        assert p / 8 == i && p % 8 == p - 8 * i;
      } else {
        assert p / 8 != i;
      }
    }
  }

  lemma BitsOfInjective(a: seq<byte>, b: seq<byte>)
    requires |a| == |b| && BitsOf(a) == BitsOf(b)
    ensures a == b
  {
    forall i | 0 <= i < |a|
      ensures a[i] == b[i]
    {
      BitsOfByte(a, i);
      BitsOfByte(b, i);
      ByteOfBits(a[i] as nat);
      ByteOfBits(b[i] as nat);
    }
  }

  lemma BitsOfZero(data: seq<byte>)
    requires forall i :: 0 <= i < |data| ==> data[i] == 0
    ensures BitsOf(data) == Zeros(8 * |data|)
  {
    ToBitsZero(8);
    forall p | 0 <= p < 8 * |data|
      ensures !BitsOf(data)[p]
    {
      assert data[p / 8] == 0;
    }
  }

  // ---------------------------------------------------------------------
  // Splicing

  lemma SpliceSplice<T>(s: seq<T>, at: nat, t1: seq<T>, t2: seq<T>)
    requires at + |t1| + |t2| <= |s|
    ensures Splice(Splice(s, at, t1), at + |t1|, t2) == Splice(s, at, t1 + t2)
  {
  }

  /** SpliceSplice, with the second position named. */
  lemma SpliceNext<T>(s: seq<T>, at: nat, t1: seq<T>, t2: seq<T>, next: nat)
    requires next == at + |t1| && next + |t2| <= |s|
    ensures Splice(Splice(s, at, t1), next, t2) == Splice(s, at, t1 + t2)
  {
    SpliceSplice(s, at, t1, t2);
  }

  /** Splicing into a stretch that already sits in s is splicing into s. */
  lemma SpliceWithin<T>(s: seq<T>, at: nat, t: seq<T>, j: nat, u: seq<T>)
    requires at + |t| <= |s| && s[at..at + |t|] == t && j + |u| <= |t|
    ensures Splice(s, at, Splice(t, j, u)) == Splice(s, at + j, u)
  {
  }

  /** A padded read splits at any point. */
  lemma PaddedSplit(s: seq<bool>, from: nat, a: nat, b: nat)
    ensures Padded(s, from, a + b) == Padded(s, from, a) + Padded(s, from + a, b)
  {
  }

  /** A padded read inside s is a slice of s. */
  lemma PaddedSlice(s: seq<bool>, from: nat, n: nat)
    requires from + n <= |s|
    ensures Padded(s, from, n) == s[from..from + n]
  {
  }

  lemma ValueOfZeros(n: nat)
    ensures ValueOf(Zeros(n)) == 0
  {
    ToBitsZero(n);
    ValueOfToBits(0, n);
    ShrSmall(0, n);
  }

  // ---------------------------------------------------------------------
  // One byte of a buffer

  /**
   * Writing an n-bit chunk at bit s of byte i of a buffer, as set() does
   * with WriteField, splices the chunk's bits into the buffer's bits.
   */
  lemma WriteByteChunk(data: seq<byte>, i: nat, s: nat, n: nat, chunk: nat, at: nat)
    requires i < |data| && s + n <= 8 && chunk < Pow2(n) && at == 8 * i + s
    ensures WriteField(data[i] as nat, 8 - s, n, chunk) < 256
    ensures BitsOf(data[i := WriteField(data[i] as nat, 8 - s, n, chunk) as byte])
         == Splice(BitsOf(data), at, ToBits(chunk, n))
  {
    Pow2Byte();
    WriteFieldIn(data[i] as nat, s, n, chunk, 8, 256);
    ByteUpdate(data, i, WriteField(data[i] as nat, 8 - s, n, chunk) as byte, s, ToBits(chunk, n), at);
  }

  /** WriteFieldBits with the field's size named. */
  lemma WriteFieldIn(b: nat, s: nat, n: nat, chunk: nat, B: nat, size: nat)
    requires Pow2(B) == size && b < size && s + n <= B && chunk < Pow2(n)
    ensures WriteField(b, B - s, n, chunk) < size
    ensures ToBits(WriteField(b, B - s, n, chunk), B) == Splice(ToBits(b, B), s, ToBits(chunk, n))
  {
    WriteFieldBits(b, s, n, chunk, B);
  }

  /** Replacing byte i by one whose bits differ from it only in `part`, at bit s. */
  lemma ByteUpdate(data: seq<byte>, i: nat, nb: byte, s: nat, part: seq<bool>, at: nat)
    requires i < |data| && s + |part| <= 8 && at == 8 * i + s
    requires ToBits(nb as nat, 8) == Splice(ToBits(data[i] as nat, 8), s, part)
    ensures BitsOf(data[i := nb]) == Splice(BitsOf(data), at, part)
  {
    BitsOfByte(data, i);
    BitsOfUpdate(data, i, nb);
    UpdateWithin(BitsOf(data), BitsOf(data[i := nb]), 8 * i, 8, ToBits(data[i] as nat, 8), ToBits(nb as nat, 8), s, part, at);
  }

  /** Replacing the window at p by a copy of it with part spliced in at s. */
  lemma UpdateWithin(t: seq<bool>, u: seq<bool>, p: nat, m: nat, window: seq<bool>, changed: seq<bool>, s: nat, part: seq<bool>, at: nat)
    requires |window| == m && p + m <= |t| && t[p..p + m] == window && s + |part| <= m && at == p + s
    requires changed == Splice(window, s, part) && u == Splice(t, p, changed)
    ensures u == Splice(t, at, part)
  {
    SpliceWithin(t, p, window, s, part);
  }

  lemma Pow2Byte()
    ensures Pow2(8) == 256
  {
  }

  /**
   * Reading n bits at bit s of byte i, as get() does (keep the low 8 - s
   * bits of the byte, then shift right), gives the value of those bits of
   * the buffer.
   */
  lemma ReadByteChunk(data: seq<byte>, i: nat, s: nat, n: nat, at: nat)
    requires i < |data| && s + n <= 8 && at == 8 * i + s
    ensures Shr(Low(data[i] as nat, 8 - s), 8 - s - n) == ValueOf(Padded(BitsOf(data), at, n))
  {
    var x := Shr(Low(data[i] as nat, 8 - s), 8 - s - n);
    ReadFieldIn(data[i] as nat, s, n, 8);
    ByteWindow(data, i, s, ToBits(x, n), at);
    ValueOfToBitsExact(x, n);
  }

  /** ReadFieldBits, with the bound on the field read. */
  lemma ReadFieldIn(b: nat, s: nat, n: nat, B: nat)
    requires s + n <= B
    ensures Shr(Low(b, B - s), B - s - n) < Pow2(n)
    ensures ToBits(b, B)[s..s + n] == ToBits(Shr(Low(b, B - s), B - s - n), n)
  {
    ShrBound(Low(b, B - s), n, B - s - n);
    ReadFieldBits(b, s, n, B);
  }

  /** Bits s.. of byte i are bits 8 * i + s.. of the buffer. */
  lemma ByteWindow(data: seq<byte>, i: nat, s: nat, part: seq<bool>, at: nat)
    requires i < |data| && s + |part| <= 8 && ToBits(data[i] as nat, 8)[s..s + |part|] == part && at == 8 * i + s
    ensures Padded(BitsOf(data), at, |part|) == part
  {
    BitsOfByte(data, i);
    PaddedWindow(BitsOf(data), 8 * i, 8, ToBits(data[i] as nat, 8), s, part, at);
  }

  /** Bits s.. of a window that sits at p are bits p + s.. of the whole. */
  lemma PaddedWindow(t: seq<bool>, p: nat, m: nat, window: seq<bool>, s: nat, part: seq<bool>, at: nat)
    requires |window| == m && p + m <= |t| && t[p..p + m] == window
    requires s + |part| <= m && window[s..s + |part|] == part && at == p + s
    ensures Padded(t, at, |part|) == part
  {
    forall k | 0 <= k < |part|
      ensures Padded(t, at, |part|)[k] == part[k]
    {
      assert t[at + k] == window[s + k];
    }
  }


  // ---------------------------------------------------------------------
  // Reads and writes that span bytes

  /**
   * Byte i of a buffer as get() sees it: past the end a typed array yields
   * undefined, which `%` and the shifts turn into 0.
   */
  function ByteAt(data: seq<byte>, i: nat): (b: nat)
    ensures b < 256
  {
    if i < |data| then data[i] as nat else 0
  }

  lemma {:induction false} LowZero(k: nat)
    ensures Low(0, k) == 0
  {
    if k > 0 {
      LowZero(k - 1);
    }
  }

  lemma {:induction false} ShrZero(k: nat)
    ensures Shr(0, k) == 0
  {
    if k > 0 {
      ShrZero(k - 1);
    }
  }

  /** ReadByteChunk, extended past the end of the buffer, where bits read as 0. */
  lemma ReadByte(data: seq<byte>, i: nat, s: nat, n: nat, at: nat)
    requires s + n <= 8 && at == 8 * i + s
    ensures Shr(Low(ByteAt(data, i), 8 - s), 8 - s - n) == ValueOf(Padded(BitsOf(data), at, n))
  {
    if i < |data| {
      ReadByteChunk(data, i, s, n, at);
    } else {
      LowZero(8 - s);
      ShrZero(8 - s - n);
      assert Padded(BitsOf(data), at, n) == Zeros(n);
      ValueOfZeros(n);
    }
  }

  /** The value of a + b bits is that of the first a, shifted left by b, plus that of the last b. */
  lemma ValueOfPaddedSplit(s: seq<bool>, from: nat, a: nat, b: nat, n: nat)
    requires n == a + b
    ensures ValueOf(Padded(s, from, n)) == Shl(ValueOf(Padded(s, from, a)), b) + ValueOf(Padded(s, from + a, b))
  {
    PaddedSplit(s, from, a, b);
    ValueOfAppend(Padded(s, from, a), Padded(s, from + a, b));
    ShlMul(ValueOf(Padded(s, from, a)), b);
  }

  /** Two bit strings spliced one after the other. */
  lemma SpliceChunks(t0: seq<bool>, mid: seq<bool>, t2: seq<bool>, at: nat, at2: nat, a: nat, m: nat, n: nat,
                      src: seq<bool>, o: nat, o2: nat)
    requires n == a + m && at2 == at + a && o2 == o + a && at + n <= |t0|
    requires mid == Splice(t0, at, Padded(src, o, a))
    requires t2 == Splice(mid, at2, Padded(src, o2, m))
    ensures t2 == Splice(t0, at, Padded(src, o, n))
  {
    PaddedSplit(src, o, a, m);
    SpliceNext(t0, at, Padded(src, o, a), Padded(src, o2, m), at2);
  }

  /** An (n + k)-bit value is its high n bits, x >>> k, followed by its k low bits. */
  lemma SplitField(x: nat, n: nat, k: nat, w: nat)
    requires w == n + k && x < Pow2(w)
    ensures Shr(x, k) < Pow2(n)
    ensures ToBits(x, w) == ToBits(Shr(x, k), n) + ToBits(Low(x, k), k)
  {
    ShrBound(x, n, k);
    ToBitsSplit(x, n, k);
  }


  /** ReadByte for the byte that holds bit `at`, reading n bits from there. */
  lemma ReadFirstByte(data: seq<byte>, at: nat, n: nat)
    requires at % 8 + n <= 8
    ensures Shr(Low(ByteAt(data, at / 8), 8 - at % 8), 8 - at % 8 - n) == ValueOf(Padded(BitsOf(data), at, n))
  {
    ReadByte(data, at / 8, at % 8, n, at);
  }

  /** ... and reading the rest of that byte. */
  lemma ReadRestOfByte(data: seq<byte>, at: nat)
    ensures Low(ByteAt(data, at / 8), 8 - at % 8) == ValueOf(Padded(BitsOf(data), at, 8 - at % 8))
  {
    ReadByte(data, at / 8, at % 8, 8 - at % 8, at);
  }

  /** A read that runs past the byte holding bit `at`: that byte's part, shifted, plus the rest. */
  lemma ReadPastByte(data: seq<byte>, at: nat, n: nat, rest: nat)
    requires n > 8 - at % 8
    requires rest == ValueOf(Padded(BitsOf(data), at + (8 - at % 8), n - (8 - at % 8)))
    ensures Shl(Low(ByteAt(data, at / 8), 8 - at % 8), n - (8 - at % 8)) + rest == ValueOf(Padded(BitsOf(data), at, n))
  {
    ReadRestOfByte(data, at);
    ValueOfPaddedSplit(BitsOf(data), at, 8 - at % 8, n - (8 - at % 8), n);
  }

  /** WriteByteChunk for the byte that holds bit `at`. */
  lemma WriteFirstByte(data: seq<byte>, at: nat, n: nat, chunk: nat)
    requires at / 8 < |data| && at % 8 + n <= 8 && chunk < Pow2(n)
    ensures WriteField(data[at / 8] as nat, 8 - at % 8, n, chunk) < 256
    ensures BitsOf(data[at / 8 := WriteField(data[at / 8] as nat, 8 - at % 8, n, chunk) as byte])
         == Splice(BitsOf(data), at, ToBits(chunk, n))
  {
    WriteByteChunk(data, at / 8, at % 8, n, chunk, at);
  }

}
