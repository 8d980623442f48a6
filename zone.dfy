/**
 * The zone cache and the zone layout.
 *
 * fillZCache decodes the lines of a compressed zone one after the other
 * into a cache keyed by the zone's start: line 0 is w raw bits at the
 * start, every later line is decoded by DecodeLine against the contents
 * of the lines before it.  A run of zPush calls leaves the zone laid out
 * as line 0 followed by lines that each decode, against the earlier
 * values, to the value pushed.  The lemmas here show that decoding such a
 * zone gives back the values pushed, both for a fill up to the cursor (the
 * one zPush makes) and for sequential reads (the ones zGet makes).
 */
module ZoneCache {
  import opened Bits
  import opened LineFormat

  /** A cached line: where it starts, how many bits it takes, its content. */
  datatype CacheLine = CacheLine(offset: nat, zSize: nat, content: seq<bool>)

  function End(l: CacheLine): nat
  {
    l.offset + l.zSize
  }

  function Contents(zc: seq<CacheLine>): (h: seq<seq<bool>>)
    ensures |h| == |zc|
    ensures forall i :: 0 <= i < |zc| ==> h[i] == zc[i].content
  {
    seq(|zc|, i requires 0 <= i < |zc| => zc[i].content)
  }

  /** Line 0 of the zone at `start`: w raw bits. */
  function FirstLine(bits: seq<bool>, start: nat, w: nat): CacheLine
  {
    CacheLine(start, w, Padded(bits, start, w))
  }

  /**
   * The line that follows the cached lines zc: it starts where the last of
   * them ends.  None where the source throws or does not terminate.
   */
  function NextLine(bits: seq<bool>, w: nat, zc: seq<CacheLine>): (l: Option<CacheLine>)
    requires zc != []
    ensures l.Some? ==> l.value.offset == End(zc[|zc| - 1]) && l.value.zSize > 0 && |l.value.content| >= w
    ensures !Bit(bits, End(zc[|zc| - 1])) ==>
              l == Some(CacheLine(End(zc[|zc| - 1]), 1 + w, Padded(bits, End(zc[|zc| - 1]) + 1, w)))
  {
    var at := End(zc[|zc| - 1]);
    match DecodeLine(bits, at, w, Contents(zc))
    case None => None
    case Some(d) => Some(CacheLine(at, d.end - at, d.content))
  }

  /**
   * When a fill stops: once the cache reaches the cursor, once it reaches
   * beyond the cursor (sequential reads), or once it holds line n.
   */
  datatype Until = ToCursor | PastCursor | ToLine(n: nat)

  predicate Stops(zc: seq<CacheLine>, until: Until, cursor: nat)
    requires zc != []
  {
    match until
    case ToCursor => End(zc[|zc| - 1]) >= cursor
    case PastCursor => End(zc[|zc| - 1]) >= cursor + 1
    case ToLine(n) => n < |zc|
  }

  /** The lines a fill starts from: the cached ones, or line 0 alone. */
  function Initial(cache: map<nat, seq<CacheLine>>, bits: seq<bool>, start: nat, w: nat): (zc: seq<CacheLine>)
    ensures zc != []
    ensures start !in cache || cache[start] == [] ==> zc == [FirstLine(bits, start, w)]
  {
    if start in cache && cache[start] != [] then cache[start] else [FirstLine(bits, start, w)]
  }

  /**
   * zc is what a fill starting from zc0 leaves: each line added is the
   * next line of the ones before it, added only while the fill had not
   * stopped; with ok the fill stopped, without it the next line could not
   * be decoded.
   */
  ghost predicate Grown(bits: seq<bool>, w: nat, zc0: seq<CacheLine>, zc: seq<CacheLine>, until: Until, cursor: nat, ok: bool)
  {
    Growing(bits, w, zc0, zc, until, cursor)
    && (ok ==> Stops(zc, until, cursor))
    && (!ok ==> !Stops(zc, until, cursor) && NextLine(bits, w, zc).None?)
  }

  /** zc is zc0 followed by lines each added as the next one while the fill had not stopped. */
  ghost predicate Growing(bits: seq<bool>, w: nat, zc0: seq<CacheLine>, zc: seq<CacheLine>, until: Until, cursor: nat)
  {
    zc0 != [] && zc0 <= zc
    && (forall k {:trigger NextLine(bits, w, zc[..k])} :: |zc0| <= k < |zc| ==>
          !Stops(zc[..k], until, cursor) && NextLine(bits, w, zc[..k]) == Some(zc[k]))
  }

  /** Adding the next line to a fill that has not stopped keeps it growing. */
  lemma GrowingStep(bits: seq<bool>, w: nat, zc0: seq<CacheLine>, zc: seq<CacheLine>, until: Until, cursor: nat, l: CacheLine)
    requires Growing(bits, w, zc0, zc, until, cursor)
    requires !Stops(zc, until, cursor) && NextLine(bits, w, zc) == Some(l)
    ensures Growing(bits, w, zc0, zc + [l], until, cursor)
  {
    var zc' := zc + [l];
    forall k | |zc0| <= k < |zc'|
      ensures !Stops(zc'[..k], until, cursor) && NextLine(bits, w, zc'[..k]) == Some(zc'[k])
    {
      if k < |zc| {
        assert zc'[..k] == zc[..k] && zc'[k] == zc[k];
        assert NextLine(bits, w, zc[..k]) == Some(zc[k]);
      } else {
        assert zc'[..k] == zc && zc'[k] == l;
      }
    }
  }

  /**
   * How far a fill still has to go: bits to the cursor, bits past it, or
   * lines to line n; zero once it stops.  Every added line takes at least
   * one bit, so each one brings this down.
   */
  function Remaining(zc: seq<CacheLine>, until: Until, cursor: nat): nat
    requires zc != []
  {
    if Stops(zc, until, cursor) then 0
    else match until
      case ToCursor => cursor - End(zc[|zc| - 1])
      case PastCursor => cursor + 1 - End(zc[|zc| - 1])
      case ToLine(n) => n + 1 - |zc|
  }

  lemma RemainingDrops(bits: seq<bool>, w: nat, zc: seq<CacheLine>, until: Until, cursor: nat, l: CacheLine)
    requires zc != [] && !Stops(zc, until, cursor) && NextLine(bits, w, zc) == Some(l)
    ensures Remaining(zc + [l], until, cursor) < Remaining(zc, until, cursor)
  {
    assert (zc + [l])[|zc|] == l;
  }

  // ---------------------------------------------------------------------
  // The layout of a zone written by zPush

  /**
   * Where line j of a zone ends, with ls the encoded lines after line 0;
   * line 0 ends w bits after the start.
   */
  function LineEnd(start: nat, w: nat, ls: seq<seq<bool>>, j: nat): nat
    requires j <= |ls|
  {
    if j == 0 then start + w else LineEnd(start, w, ls, j - 1) + |ls[j - 1]|
  }

  function ZoneEnd(start: nat, w: nat, ls: seq<seq<bool>>): nat
  {
    LineEnd(start, w, ls, |ls|)
  }

  /**
   * The zone at `start` holds the w-bit values vs: vs[0] raw, then for each
   * later value an encoded line that decodes to it against the values
   * before it, the lines back to back.
   */
  ghost predicate Laid(bits: seq<bool>, start: nat, w: nat, vs: seq<seq<bool>>, ls: seq<seq<bool>>)
  {
    LaidValues(w, vs, ls) && LaidBits(bits, start, w, vs, ls)
  }

  /** The values have width w and each line decodes to its value against the values before it. */
  ghost predicate LaidValues(w: nat, vs: seq<seq<bool>>, ls: seq<seq<bool>>)
  {
    |vs| == |ls| + 1
    && (forall j :: 0 <= j < |vs| ==> |vs[j]| == w)
    && (forall j {:trigger Decodes(ls[j], vs[j + 1], w, vs[..j + 1])} :: 0 <= j < |ls| ==> Decodes(ls[j], vs[j + 1], w, vs[..j + 1]))
  }

  /** vs[0] and then the lines sit back to back in bits from start on. */
  ghost predicate LaidBits(bits: seq<bool>, start: nat, w: nat, vs: seq<seq<bool>>, ls: seq<seq<bool>>)
  {
    |vs| == |ls| + 1
    && HoldsAt(bits, start, vs[0])
    && (forall j {:trigger HoldsAt(bits, LineEnd(start, w, ls, j), ls[j])} :: 0 <= j < |ls| ==> HoldsAt(bits, LineEnd(start, w, ls, j), ls[j]))
  }

  /** The cache lines of such a zone. */
  function ZoneLines(start: nat, w: nat, vs: seq<seq<bool>>, ls: seq<seq<bool>>): (zl: seq<CacheLine>)
    requires |vs| == |ls| + 1
    ensures |zl| == |vs|
  {
    seq(|vs|, j requires 0 <= j < |vs| =>
      if j == 0 then CacheLine(start, w, vs[0]) else CacheLine(LineEnd(start, w, ls, j - 1), |ls[j - 1]|, vs[j]))
  }

  /** Every encoded line takes at least one bit. */
  lemma LaidLinesNonEmpty(w: nat, vs: seq<seq<bool>>, ls: seq<seq<bool>>)
    requires LaidValues(w, vs, ls)
    ensures forall k :: 0 <= k < |ls| ==> |ls[k]| > 0
  {
    forall k | 0 <= k < |ls|
      ensures |ls[k]| > 0
    {
      assert Decodes(ls[k], vs[k + 1], w, vs[..k + 1]);
    }
  }

  /** ... so the lines end further and further on. */
  lemma {:induction false} LineEndGrows(start: nat, w: nat, ls: seq<seq<bool>>, i: nat, j: nat)
    requires forall k :: 0 <= k < |ls| ==> |ls[k]| > 0
    requires i <= j <= |ls|
    ensures LineEnd(start, w, ls, i) + (j - i) <= LineEnd(start, w, ls, j)
    decreases j
  {
    if i < j {
      LineEndGrows(start, w, ls, i, j - 1);
    }
  }

  // ---------------------------------------------------------------------
  // Decoding a laid-out zone

  /** Line 0 reads back raw. */
  lemma FirstLineOfZone(bits: seq<bool>, start: nat, w: nat, vs: seq<seq<bool>>, ls: seq<seq<bool>>)
    requires Laid(bits, start, w, vs, ls)
    ensures FirstLine(bits, start, w) == ZoneLines(start, w, vs, ls)[0]
  {
    PaddedInside(bits, vs[0], start, 0, w);
    assert vs[0][0..w] == vs[0];
  }

  lemma ZoneLineEnd(start: nat, w: nat, vs: seq<seq<bool>>, ls: seq<seq<bool>>, j: nat)
    requires |vs| == |ls| + 1 && j < |vs|
    ensures End(ZoneLines(start, w, vs, ls)[j]) == LineEnd(start, w, ls, j)
  {
  }

  /** Each later line decodes, against the lines before it, to its value. */
  lemma NextLineOfZone(bits: seq<bool>, start: nat, w: nat, vs: seq<seq<bool>>, ls: seq<seq<bool>>, m: nat)
    requires |vs| == |ls| + 1 && 1 <= m < |vs|
    requires Decodes(ls[m - 1], vs[m], w, vs[..m]) && HoldsAt(bits, LineEnd(start, w, ls, m - 1), ls[m - 1])
    ensures NextLine(bits, w, ZoneLines(start, w, vs, ls)[..m]) == Some(ZoneLines(start, w, vs, ls)[m])
  {
    var zl := ZoneLines(start, w, vs, ls);
    var zc := zl[..m];
    ZoneLineEnd(start, w, vs, ls, m - 1);
    assert Contents(zc) == vs[..m];
    NextLineHolds(bits, w, zc, ls[m - 1], vs[m]);
  }

  /** The line after zc is a line that is laid where they end and decodes against them. */
  lemma NextLineHolds(bits: seq<bool>, w: nat, zc: seq<CacheLine>, line: seq<bool>, x: seq<bool>)
    requires zc != [] && Decodes(line, x, w, Contents(zc)) && HoldsAt(bits, End(zc[|zc| - 1]), line)
    ensures NextLine(bits, w, zc) == Some(CacheLine(End(zc[|zc| - 1]), |line|, x))
  {
    var p := End(zc[|zc| - 1]);
    DecodeLineLocal(line, w, Contents(zc), bits, p, x);
    NextLineIs(bits, w, zc, Decoded(x, p + |line|));
  }

  lemma NextLineIs(bits: seq<bool>, w: nat, zc: seq<CacheLine>, d: Decoded)
    requires zc != [] && DecodeLine(bits, End(zc[|zc| - 1]), w, Contents(zc)) == Some(d)
    ensures NextLine(bits, w, zc) == Some(CacheLine(End(zc[|zc| - 1]), d.end - End(zc[|zc| - 1]), d.content))
  {
  }

  lemma LaidLine(bits: seq<bool>, start: nat, w: nat, vs: seq<seq<bool>>, ls: seq<seq<bool>>, m: nat)
    requires Laid(bits, start, w, vs, ls) && 1 <= m < |vs|
    ensures Decodes(ls[m - 1], vs[m], w, vs[..m]) && HoldsAt(bits, LineEnd(start, w, ls, m - 1), ls[m - 1])
  {
    var j := m - 1;
    assert Decodes(ls[j], vs[j + 1], w, vs[..j + 1]);
    assert j + 1 == m;
  }

  /**
   * A fill that starts from the first lines of a laid-out zone, and whose
   * stopping rule first holds once it has n lines, ends with exactly the
   * zone's first n lines.
   */
  lemma FillFollowsZone(bits: seq<bool>, start: nat, w: nat, vs: seq<seq<bool>>, ls: seq<seq<bool>>,
                        zc0: seq<CacheLine>, zc: seq<CacheLine>, until: Until, cursor: nat, ok: bool, n: nat)
    requires Laid(bits, start, w, vs, ls) && Grown(bits, w, zc0, zc, until, cursor, ok)
    requires 1 <= |zc0| <= n <= |vs| && zc0 == ZoneLines(start, w, vs, ls)[..|zc0|]
    requires FirstStop(ZoneLines(start, w, vs, ls), n, until, cursor)
    ensures ok && zc == ZoneLines(start, w, vs, ls)[..n]
  {
    var zl := ZoneLines(start, w, vs, ls);
    var k: nat := |zc0|;
    while k < |zc| && k < n
      invariant |zc0| <= k <= |zc| && k <= n
      invariant zc[..k] == zl[..k]
    {
      FillStep(bits, start, w, vs, ls, zc0, zc, until, cursor, ok, k);
      k := k + 1;
    }
    assert k == |zc| by {
      if k < |zc| {
        GrownStops(bits, w, zc0, zc, until, cursor, ok, k);
        SameStops(zc, zl, k, n, until, cursor);
      }
    }
    TakeAll(zc);
    SameStops(zc, zl, k, n, until, cursor);
    if k < n {
      LaidLine(bits, start, w, vs, ls, k);
      NextLineOfZone(bits, start, w, vs, ls, k);
    }
  }

  /** The stopping rule holds first on the first n lines of zl. */
  ghost predicate FirstStop(zl: seq<CacheLine>, n: nat, until: Until, cursor: nat)
  {
    1 <= n <= |zl| && Stops(zl[..n], until, cursor)
    && forall k :: 1 <= k < n ==> !Stops(zl[..k], until, cursor)
  }

  /** One more line of the fill is the zone's next line. */
  lemma FillStep(bits: seq<bool>, start: nat, w: nat, vs: seq<seq<bool>>, ls: seq<seq<bool>>,
                 zc0: seq<CacheLine>, zc: seq<CacheLine>, until: Until, cursor: nat, ok: bool, k: nat)
    requires Laid(bits, start, w, vs, ls) && Grown(bits, w, zc0, zc, until, cursor, ok)
    requires 1 <= |zc0| <= k < |zc| && k < |vs| && zc[..k] == ZoneLines(start, w, vs, ls)[..k]
    ensures zc[..k + 1] == ZoneLines(start, w, vs, ls)[..k + 1]
  {
    GrownAt(bits, w, zc0, zc, until, cursor, ok, k);
    LaidLine(bits, start, w, vs, ls, k);
    NextLineOfZone(bits, start, w, vs, ls, k);
    PrefixStep(zc, ZoneLines(start, w, vs, ls), k);
  }

  lemma TakeAll<T>(s: seq<T>)
    ensures s[..|s|] == s
  {
  }

  lemma SameStops(a: seq<CacheLine>, b: seq<CacheLine>, k: nat, n: nat, until: Until, cursor: nat)
    requires 1 <= k <= |a| && k <= |b| && a[..k] == b[..k]
    ensures k == n ==> Stops(a[..k], until, cursor) == Stops(b[..n], until, cursor)
    ensures Stops(a[..k], until, cursor) == Stops(b[..k], until, cursor)
  {
  }

  lemma GrownStops(bits: seq<bool>, w: nat, zc0: seq<CacheLine>, zc: seq<CacheLine>, until: Until, cursor: nat, ok: bool, k: nat)
    requires Grown(bits, w, zc0, zc, until, cursor, ok) && |zc0| <= k < |zc|
    ensures !Stops(zc[..k], until, cursor)
  {
    GrownAt(bits, w, zc0, zc, until, cursor, ok, k);
  }

  lemma GrownAt(bits: seq<bool>, w: nat, zc0: seq<CacheLine>, zc: seq<CacheLine>, until: Until, cursor: nat, ok: bool, k: nat)
    requires Grown(bits, w, zc0, zc, until, cursor, ok) && |zc0| <= k < |zc|
    ensures !Stops(zc[..k], until, cursor) && NextLine(bits, w, zc[..k]) == Some(zc[k])
  {
  }

  lemma PrefixStep<T>(a: seq<T>, b: seq<T>, k: nat)
    requires k < |a| && k < |b| && a[..k] == b[..k] && a[k] == b[k]
    ensures a[..k + 1] == b[..k + 1]
  {
    assert a[..k + 1] == a[..k] + [a[k]];
    assert b[..k + 1] == b[..k] + [b[k]];
  }

  /** The end of the k-th first lines of the zone, as a fill's stopping rule sees it. */
  lemma PrefixEnd(start: nat, w: nat, vs: seq<seq<bool>>, ls: seq<seq<bool>>, k: nat)
    requires |vs| == |ls| + 1 && 1 <= k <= |vs|
    ensures var zc := ZoneLines(start, w, vs, ls)[..k]; zc != [] && End(zc[|zc| - 1]) == LineEnd(start, w, ls, k - 1)
  {
    ZoneLineEnd(start, w, vs, ls, k - 1);
  }

  /** Filling to the zone's end stops exactly when every line is in the cache. */
  lemma StopsAtZoneEnd(start: nat, w: nat, vs: seq<seq<bool>>, ls: seq<seq<bool>>)
    requires |vs| == |ls| + 1 && forall k :: 0 <= k < |ls| ==> |ls[k]| > 0
    ensures FirstStop(ZoneLines(start, w, vs, ls), |vs|, ToCursor, ZoneEnd(start, w, ls))
  {
    PrefixEnd(start, w, vs, ls, |vs|);
    forall k | 1 <= k < |vs|
      ensures !Stops(ZoneLines(start, w, vs, ls)[..k], ToCursor, ZoneEnd(start, w, ls))
    {
      PrefixEnd(start, w, vs, ls, k);
      LineEndGrows(start, w, ls, k - 1, |ls|);
    }
  }

  /**
   * A fill that starts from the zone's first lines and reads to the zone's
   * end brings the whole zone into the cache.
   */
  lemma FillToZoneEnd(bits: seq<bool>, start: nat, w: nat, vs: seq<seq<bool>>, ls: seq<seq<bool>>,
                      zc0: seq<CacheLine>, zc: seq<CacheLine>, ok: bool)
    requires Laid(bits, start, w, vs, ls) && Grown(bits, w, zc0, zc, ToCursor, ZoneEnd(start, w, ls), ok)
    requires 1 <= |zc0| <= |vs| && zc0 == ZoneLines(start, w, vs, ls)[..|zc0|]
    ensures ok && zc == ZoneLines(start, w, vs, ls) && Contents(zc) == vs
  {
    LaidLinesNonEmpty(w, vs, ls);
    StopsAtZoneEnd(start, w, vs, ls);
    FillFollowsZone(bits, start, w, vs, ls, zc0, zc, ToCursor, ZoneEnd(start, w, ls), ok, |vs|);
    TakeAll(ZoneLines(start, w, vs, ls));
  }

  function LineStart(start: nat, w: nat, ls: seq<seq<bool>>, j: nat): nat
    requires j <= |ls| + 1
  {
    if j == 0 then start else LineEnd(start, w, ls, j - 1)
  }

  /** Reading sequentially from the start of line j stops right after line j. */
  lemma StopsAfterLine(start: nat, w: nat, vs: seq<seq<bool>>, ls: seq<seq<bool>>, j: nat)
    requires |vs| == |ls| + 1 && j < |vs| && w > 0 && forall k :: 0 <= k < |ls| ==> |ls[k]| > 0
    ensures FirstStop(ZoneLines(start, w, vs, ls), j + 1, PastCursor, LineStart(start, w, ls, j))
    ensures LineEnd(start, w, ls, j) == LineStart(start, w, ls, j + 1)
  {
    PrefixEnd(start, w, vs, ls, j + 1);
    if j > 0 {
      LineEndGrows(start, w, ls, j - 1, j);
    }
    forall k | 1 <= k < j + 1
      ensures !Stops(ZoneLines(start, w, vs, ls)[..k], PastCursor, LineStart(start, w, ls, j))
    {
      PrefixEnd(start, w, vs, ls, k);
      LineEndGrows(start, w, ls, k - 1, j - 1);
    }
  }

  /**
   * A sequential read with the cursor at the start of line j decodes up to
   * line j, whose content is the value pushed there, and the line ends
   * where line j + 1 starts.
   */
  lemma SequentialRead(bits: seq<bool>, start: nat, w: nat, vs: seq<seq<bool>>, ls: seq<seq<bool>>,
                       zc0: seq<CacheLine>, zc: seq<CacheLine>, ok: bool, j: nat)
    requires Laid(bits, start, w, vs, ls) && w > 0 && j < |vs|
    requires Grown(bits, w, zc0, zc, PastCursor, LineStart(start, w, ls, j), ok)
    requires 1 <= |zc0| <= j + 1 && zc0 == ZoneLines(start, w, vs, ls)[..|zc0|]
    ensures ok && |zc| == j + 1 && zc[j].content == vs[j]
    ensures End(zc[j]) == LineStart(start, w, ls, j + 1) && zc == ZoneLines(start, w, vs, ls)[..j + 1]
  {
    LaidLinesNonEmpty(w, vs, ls);
    StopsAfterLine(start, w, vs, ls, j);
    FillFollowsZone(bits, start, w, vs, ls, zc0, zc, PastCursor, LineStart(start, w, ls, j), ok, j + 1);
    ZoneRead(start, w, vs, ls, zc, j);
  }

  lemma IndexedRead(bits: seq<bool>, start: nat, w: nat, vs: seq<seq<bool>>, ls: seq<seq<bool>>,
                    zc0: seq<CacheLine>, zc: seq<CacheLine>, ok: bool, cursor: nat, n: nat)
    requires Laid(bits, start, w, vs, ls) && n < |vs|
    requires Grown(bits, w, zc0, zc, ToLine(n), cursor, ok)
    requires 1 <= |zc0| <= n + 1 && zc0 == ZoneLines(start, w, vs, ls)[..|zc0|]
    ensures ok && |zc| == n + 1 && zc[n].content == vs[n]
  {
    assert FirstStop(ZoneLines(start, w, vs, ls), n + 1, ToLine(n), cursor);
    FillFollowsZone(bits, start, w, vs, ls, zc0, zc, ToLine(n), cursor, ok, n + 1);
    ZoneRead(start, w, vs, ls, zc, n);
  }

  /** The last of the zone's first j + 1 lines is line j. */
  lemma ZoneRead(start: nat, w: nat, vs: seq<seq<bool>>, ls: seq<seq<bool>>, zc: seq<CacheLine>, j: nat)
    requires |vs| == |ls| + 1 && j < |vs| && zc == ZoneLines(start, w, vs, ls)[..j + 1]
    ensures |zc| == j + 1 && zc[j].content == vs[j] && End(zc[j]) == LineEnd(start, w, ls, j)
  {
    ZoneLineEnd(start, w, vs, ls, j);
  }

  // ---------------------------------------------------------------------
  // Writing a zone

  /** The first zPush of a zone writes its line 0 raw. */
  lemma ZoneStarts(bits: seq<bool>, start: nat, w: nat, vb: seq<bool>)
    requires |vb| == w && start + w <= |bits|
    ensures Laid(Splice(bits, start, vb), start, w, [vb], [])
    ensures ZoneEnd(start, w, []) == start + w
  {
    assert Splice(bits, start, vb)[start..start + w] == vb;
  }

  lemma {:induction false} LineEndAppend(start: nat, w: nat, ls: seq<seq<bool>>, line: seq<bool>, j: nat)
    requires j <= |ls|
    ensures LineEnd(start, w, ls + [line], j) == LineEnd(start, w, ls, j)
  {
    if j > 0 {
      LineEndAppend(start, w, ls, line, j - 1);
    }
  }

  /** Writing t at `at` keeps what sits before it. */
  lemma SpliceKeeps(s: seq<bool>, at: nat, t: seq<bool>, p: nat, u: seq<bool>)
    requires at + |t| <= |s| && HoldsAt(s, p, u) && p + |u| <= at
    ensures HoldsAt(Splice(s, at, t), p, u)
  {
    assert Splice(s, at, t)[p..p + |u|] == s[p..p + |u|];
  }

  /** ... and puts t there. */
  lemma SpliceHolds(s: seq<bool>, at: nat, t: seq<bool>)
    requires at + |t| <= |s|
    ensures HoldsAt(Splice(s, at, t), at, t)
  {
    assert Splice(s, at, t)[at..at + |t|] == t;
  }

  /** A line that decodes against all the values extends the values. */
  lemma ValuesGrow(w: nat, vs: seq<seq<bool>>, ls: seq<seq<bool>>, line: seq<bool>, vb: seq<bool>)
    requires LaidValues(w, vs, ls) && |vb| == w && Decodes(line, vb, w, vs)
    ensures LaidValues(w, vs + [vb], ls + [line])
  {
    var vs', ls' := vs + [vb], ls + [line];
    forall j | 0 <= j < |ls'|
      ensures Decodes(ls'[j], vs'[j + 1], w, vs'[..j + 1])
    {
      if j < |ls| {
        assert vs'[..j + 1] == vs[..j + 1] && ls'[j] == ls[j] && vs'[j + 1] == vs[j + 1];
        assert Decodes(ls[j], vs[j + 1], w, vs[..j + 1]);
      } else {
        assert vs'[..j + 1] == vs;
      }
    }
  }

  /** Writing a line at the zone's end keeps the lines before it and lays it after them. */
  lemma BitsGrow(bits: seq<bool>, start: nat, w: nat, vs: seq<seq<bool>>, ls: seq<seq<bool>>, line: seq<bool>, vb: seq<bool>)
    requires LaidBits(bits, start, w, vs, ls) && |vs[0]| == w && forall k :: 0 <= k < |ls| ==> |ls[k]| > 0
    requires ZoneEnd(start, w, ls) + |line| <= |bits|
    ensures LaidBits(Splice(bits, ZoneEnd(start, w, ls), line), start, w, vs + [vb], ls + [line])
  {
    var e := ZoneEnd(start, w, ls);
    var bits' := Splice(bits, e, line);
    var vs', ls' := vs + [vb], ls + [line];
    LineEndGrows(start, w, ls, 0, |ls|);
    SpliceKeeps(bits, e, line, start, vs[0]);
    forall j | 0 <= j < |ls'|
      ensures HoldsAt(bits', LineEnd(start, w, ls', j), ls'[j])
    {
      LineEndAppend(start, w, ls, line, j);
      if j < |ls| {
        LineEndGrows(start, w, ls, j + 1, |ls|);
        SpliceKeeps(bits, e, line, LineEnd(start, w, ls, j), ls[j]);
      } else {
        SpliceHolds(bits, e, line);
      }
    }
  }

  /**
   * Every later zPush appends at the end of the zone a line that decodes,
   * against the zone's values, to the value pushed: the zone then holds
   * that value too.
   */
  lemma ZoneGrows(bits: seq<bool>, start: nat, w: nat, vs: seq<seq<bool>>, ls: seq<seq<bool>>, line: seq<bool>, vb: seq<bool>)
    requires Laid(bits, start, w, vs, ls) && |vb| == w && Decodes(line, vb, w, vs)
    requires ZoneEnd(start, w, ls) + |line| <= |bits|
    ensures Laid(Splice(bits, ZoneEnd(start, w, ls), line), start, w, vs + [vb], ls + [line])
    ensures ZoneEnd(start, w, ls + [line]) == ZoneEnd(start, w, ls) + |line|
  {
    LaidLinesNonEmpty(w, vs, ls);
    ValuesGrow(w, vs, ls, line, vb);
    BitsGrow(bits, start, w, vs, ls, line, vb);
    LineEndAppend(start, w, ls, line, |ls|);
  }

  // ---------------------------------------------------------------------
  // The cache of a laid-out zone

  /**
   * The lines cached for the zone at `start`, if there are any, are the
   * zone's first lines, and at most n of them.
   */
  ghost predicate CacheFits(cache: map<nat, seq<CacheLine>>, start: nat, w: nat, vs: seq<seq<bool>>, ls: seq<seq<bool>>, n: nat)
  {
    |vs| == |ls| + 1
    && (start in cache && cache[start] != [] ==>
          |cache[start]| <= n && |cache[start]| <= |vs| && cache[start] == ZoneLines(start, w, vs, ls)[..|cache[start]|])
  }

  /** A fill of such a zone starts from its first lines. */
  lemma InitialFits(cache: map<nat, seq<CacheLine>>, bits: seq<bool>, start: nat, w: nat, vs: seq<seq<bool>>, ls: seq<seq<bool>>, n: nat)
    requires Laid(bits, start, w, vs, ls) && CacheFits(cache, start, w, vs, ls, n) && n >= 1
    ensures var zc0 := Initial(cache, bits, start, w);
      1 <= |zc0| <= n && |zc0| <= |vs| && zc0 == ZoneLines(start, w, vs, ls)[..|zc0|]
  {
    if !(start in cache && cache[start] != []) {
      FirstLineOfZone(bits, start, w, vs, ls);
    }
  }

  /** Laying one more line keeps the zone's earlier cache lines. */
  lemma ZoneLinesGrow(start: nat, w: nat, vs: seq<seq<bool>>, ls: seq<seq<bool>>, vb: seq<bool>, line: seq<bool>)
    requires |vs| == |ls| + 1
    ensures ZoneLines(start, w, vs + [vb], ls + [line])[..|vs|] == ZoneLines(start, w, vs, ls)
  {
    var a, b := ZoneLines(start, w, vs + [vb], ls + [line]), ZoneLines(start, w, vs, ls);
    forall j | 0 <= j < |vs|
      ensures a[j] == b[j]
    {
      if j > 0 {
        LineEndAppend(start, w, ls, line, j - 1);
        assert (ls + [line])[j - 1] == ls[j - 1];
      }
      assert (vs + [vb])[j] == vs[j];
    }
  }

  /** After a fill of the whole zone and a push of one more line, the cache still fits. */
  lemma CacheAfterPush(cache: map<nat, seq<CacheLine>>, start: nat, w: nat, vs: seq<seq<bool>>, ls: seq<seq<bool>>,
                       vb: seq<bool>, line: seq<bool>)
    requires |vs| == |ls| + 1
    ensures CacheFits(cache[start := ZoneLines(start, w, vs, ls)], start, w, vs + [vb], ls + [line], |vs| + 1)
  {
    ZoneLinesGrow(start, w, vs, ls, vb, line);
  }

  /** Whatever a fill does, line 0 stays where it was: the zone's first value. */
  lemma FirstRead(bits: seq<bool>, w: nat, zc0: seq<CacheLine>, zc: seq<CacheLine>, until: Until, cursor: nat, ok: bool,
                  start: nat, vs: seq<seq<bool>>, ls: seq<seq<bool>>)
    requires Grown(bits, w, zc0, zc, until, cursor, ok)
    requires |vs| == |ls| + 1 && 1 <= |zc0| <= |vs| && zc0 == ZoneLines(start, w, vs, ls)[..|zc0|]
    ensures zc != [] && zc[0].content == vs[0]
  {
    assert zc[0] == zc0[0];
  }

  /**
   * An indexed read of line n of a laid-out zone, with any number of the
   * zone's first lines cached, gives the value pushed there.
   */
  lemma IndexedReadAny(bits: seq<bool>, start: nat, w: nat, vs: seq<seq<bool>>, ls: seq<seq<bool>>,
                       zc0: seq<CacheLine>, zc: seq<CacheLine>, ok: bool, cursor: nat, n: nat)
    requires Laid(bits, start, w, vs, ls) && n < |vs|
    requires Grown(bits, w, zc0, zc, ToLine(n), cursor, ok)
    requires 1 <= |zc0| <= |vs| && zc0 == ZoneLines(start, w, vs, ls)[..|zc0|]
    ensures ok && n < |zc| && zc[n].content == vs[n]
  {
    if |zc0| <= n + 1 {
      IndexedRead(bits, start, w, vs, ls, zc0, zc, ok, cursor, n);
    } else {
      assert zc[n] == zc0[n];
    }
  }

  /**
   * A fill to the cursor of a zone whose cursor is at its end gives the
   * whole zone: line |vs| + k, for k < 0, is the value pushed k lines from the end.
   */
  lemma FromEndRead(bits: seq<bool>, start: nat, w: nat, vs: seq<seq<bool>>, ls: seq<seq<bool>>,
                    zc0: seq<CacheLine>, zc: seq<CacheLine>, ok: bool, k: int)
    requires Laid(bits, start, w, vs, ls) && Grown(bits, w, zc0, zc, ToCursor, ZoneEnd(start, w, ls), ok)
    requires 1 <= |zc0| <= |vs| && zc0 == ZoneLines(start, w, vs, ls)[..|zc0|]
    requires -|vs| <= k < 0
    ensures ok && |zc| == |vs| && zc[|zc| + k].content == vs[|vs| + k]
  {
    FillToZoneEnd(bits, start, w, vs, ls, zc0, zc, ok);
  }

  /**
   * A push onto a laid-out zone whose cursor is at its end: the fill to
   * the cursor gives the zone's values, so a line that decodes against
   * them to vb, written at the cursor, lays vb after them.
   */
  lemma PushedZone(bits: seq<bool>, cache: map<nat, seq<CacheLine>>, cursor: nat, start: nat, w: nat,
                   vs: seq<seq<bool>>, ls: seq<seq<bool>>, zc: seq<CacheLine>, line: seq<bool>, vb: seq<bool>)
    requires Laid(bits, start, w, vs, ls) && cursor == ZoneEnd(start, w, ls) && CacheFits(cache, start, w, vs, ls, |vs|)
    requires Grown(bits, w, Initial(cache, bits, start, w), zc, ToCursor, cursor, true)
    requires |vb| == w && Decodes(line, vb, w, Contents(zc)) && cursor + |line| <= |bits|
    ensures Laid(Splice(bits, cursor, line), start, w, vs + [vb], ls + [line])
    ensures cursor + |line| == ZoneEnd(start, w, ls + [line])
    ensures CacheFits(cache[start := zc], start, w, vs + [vb], ls + [line], |vs| + 1)
  {
    InitialFits(cache, bits, start, w, vs, ls, |vs|);
    FillToZoneEnd(bits, start, w, vs, ls, Initial(cache, bits, start, w), zc, true);
    ZoneGrows(bits, start, w, vs, ls, line, vb);
    CacheAfterPush(cache, start, w, vs, ls, vb, line);
  }

  /** A fill to the cursor of a laid-out zone whose cursor is at its end goes through. */
  lemma ZoneFills(bits: seq<bool>, cache: map<nat, seq<CacheLine>>, cursor: nat, start: nat, w: nat,
                  vs: seq<seq<bool>>, ls: seq<seq<bool>>, zc: seq<CacheLine>, ok: bool)
    requires Laid(bits, start, w, vs, ls) && cursor == ZoneEnd(start, w, ls) && CacheFits(cache, start, w, vs, ls, |vs|)
    requires Grown(bits, w, Initial(cache, bits, start, w), zc, ToCursor, cursor, ok)
    ensures ok && Contents(zc) == vs
  {
    InitialFits(cache, bits, start, w, vs, ls, |vs|);
    FillToZoneEnd(bits, start, w, vs, ls, Initial(cache, bits, start, w), zc, ok);
  }

  /** What a fill for a read of a laid-out zone gives the reader. */
  lemma ReadFill(bits: seq<bool>, cache: map<nat, seq<CacheLine>>, cursor: nat, start: nat, w: nat,
                 vs: seq<seq<bool>>, ls: seq<seq<bool>>, j: nat, until: Until, zc: seq<CacheLine>, ok: bool)
    requires Laid(bits, start, w, vs, ls) && w > 0
    requires Grown(bits, w, Initial(cache, bits, start, w), zc, until, cursor, ok)
    ensures until == PastCursor && j < |vs| && cursor == LineStart(start, w, ls, j) && CacheFits(cache, start, w, vs, ls, j + 1) ==>
      ok && |zc| == j + 1 && zc[j].content == vs[j] && End(zc[j]) == LineStart(start, w, ls, j + 1)
      && CacheFits(cache[start := zc], start, w, vs, ls, j + 2)
    ensures (until == ToCursor || until.ToLine?) && CacheFits(cache, start, w, vs, ls, |vs|) ==> zc != [] && zc[0].content == vs[0]
    ensures until.ToLine? && until.n < |vs| && CacheFits(cache, start, w, vs, ls, |vs|) ==>
      ok && until.n < |zc| && zc[until.n].content == vs[until.n]
    ensures until == ToCursor && cursor == ZoneEnd(start, w, ls) && CacheFits(cache, start, w, vs, ls, |vs|) ==>
      ok && |zc| == |vs| && Contents(zc) == vs
  {
    var zc0 := Initial(cache, bits, start, w);
    if until == PastCursor && j < |vs| && cursor == LineStart(start, w, ls, j) && CacheFits(cache, start, w, vs, ls, j + 1) {
      InitialFits(cache, bits, start, w, vs, ls, j + 1);
      SequentialRead(bits, start, w, vs, ls, zc0, zc, ok, j);
    }
    if CacheFits(cache, start, w, vs, ls, |vs|) {
      InitialFits(cache, bits, start, w, vs, ls, |vs|);
      FirstRead(bits, w, zc0, zc, until, cursor, ok, start, vs, ls);
      if until.ToLine? && until.n < |vs| {
        IndexedReadAny(bits, start, w, vs, ls, zc0, zc, ok, cursor, until.n);
      }
      if until == ToCursor && cursor == ZoneEnd(start, w, ls) {
        FillToZoneEnd(bits, start, w, vs, ls, zc0, zc, ok);
      }
    }
  }
}
