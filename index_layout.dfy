/** The fixed layout of a protein index file (`.pin`) and the two
    offset tables it stores. All integers are 4-byte big-endian unsigned. */
module IndexLayout {
  import opened Bytes

  /** A byte range of the header or sequence file: `(offset, length)`. */
  datatype Entry = Entry(start: nat, length: int)

  /** The title length, stored at offset 8 after two uninterpreted integers. */
  function TitleLength(idx: seq<byte>): nat
    requires 12 <= |idx|
  {
    U32At(idx, 8)
  }

  /** The timestamp length, stored right after the title. */
  function TimestampLength(idx: seq<byte>): nat
    requires 12 <= |idx| && 16 + TitleLength(idx) <= |idx|
  {
    U32At(idx, 12 + TitleLength(idx))
  }

  /** Where the sequence count is read: `t + s + 16`. */
  function CountOffset(idx: seq<byte>): nat
    requires 12 <= |idx| && 16 + TitleLength(idx) <= |idx|
  {
    TitleLength(idx) + TimestampLength(idx) + 16
  }

  /** Bytes present at every offset the parser reads, and an ASCII title. */
  ghost predicate IndexWellFormed(idx: seq<byte>)
  {
    && 12 <= |idx|
    && 16 + TitleLength(idx) <= |idx|
    && IsAscii(idx[12..12 + TitleLength(idx)])
    && CountOffset(idx) + 4 <= |idx|
    && TitleLength(idx) + TimestampLength(idx) + 32 + 8 * (U32At(idx, CountOffset(idx)) + 1) <= |idx|
  }

  function Title(idx: seq<byte>): string
    requires IndexWellFormed(idx)
  {
    AsciiDecode(idx[12..12 + TitleLength(idx)])
  }

  function SequenceCount(idx: seq<byte>): nat
    requires IndexWellFormed(idx)
  {
    U32At(idx, CountOffset(idx))
  }

  /** The header table follows the count, the residue total and the
      longest-sequence length: `t + s + 32`. */
  function HeaderTableStart(idx: seq<byte>): nat
    requires IndexWellFormed(idx)
  {
    TitleLength(idx) + TimestampLength(idx) + 32
  }

  /** The sequence table follows the `count + 1` integers of the header table. */
  function SequenceTableStart(idx: seq<byte>): nat
    requires IndexWellFormed(idx)
  {
    HeaderTableStart(idx) + 4 * (SequenceCount(idx) + 1)
  }

  /** The `n + 1` cumulative offsets stored from `base` on. */
  function Cumulative(idx: seq<byte>, base: nat, n: nat): seq<nat>
    requires base + 4 * (n + 1) <= |idx|
  {
    seq(n + 1, k requires 0 <= k < n + 1 => U32At(idx, base + 4 * k))
  }

  /** Consecutive cumulative offsets taken as ranges, each `drop` bytes
      shorter than the difference; built in the order the parser appends. */
  function Intervals(c: seq<nat>, drop: nat): (r: seq<Entry>)
    requires |c| >= 1
    ensures |r| == |c| - 1
  {
    if |c| == 1 then []
    else Intervals(c[..|c| - 1], drop) + [Entry(c[|c| - 2], c[|c| - 1] - c[|c| - 2] - drop)]
  }

  lemma {:induction false} IntervalsAt(c: seq<nat>, drop: nat, j: nat)
    requires j + 1 < |c|
    ensures Intervals(c, drop)[j] == Entry(c[j], c[j + 1] - c[j] - drop)
  {
    if j + 2 < |c| {
      IntervalsAt(c[..|c| - 1], drop, j);
    }
  }

  /** Each range ends `drop` bytes before the next one starts. */
  lemma IntervalsTile(c: seq<nat>, drop: nat, j: nat)
    requires j + 2 < |c|
    ensures Intervals(c, drop)[j + 1].start
            == Intervals(c, drop)[j].start + Intervals(c, drop)[j].length + drop
  {
    IntervalsAt(c, drop, j);
    IntervalsAt(c, drop, j + 1);
  }

  /** With no range of negative length, earlier ranges end before later
      ones start: the ranges are ordered and do not overlap. */
  lemma {:induction false} IntervalsOrdered(c: seq<nat>, drop: nat, j: nat, k: nat)
    requires j < k && k + 1 < |c|
    requires forall i :: 0 <= i < |c| - 1 ==> Intervals(c, drop)[i].length >= 0
    ensures Intervals(c, drop)[j].start + Intervals(c, drop)[j].length + drop <= Intervals(c, drop)[k].start
    decreases k - j
  {
    IntervalsAt(c, drop, j);
    IntervalsAt(c, drop, k);
    if j + 1 < k {
      IntervalsOrdered(c, drop, j + 1, k);
      IntervalsAt(c, drop, j + 1);
    }
  }

  /** Three stored offsets give two ranges; the sequence ranges lose their
      terminator byte. */
  lemma IntervalsExample()
    ensures Intervals([0, 20, 45], 0) == [Entry(0, 20), Entry(20, 25)]
    ensures Intervals([0, 31, 67], 1) == [Entry(0, 30), Entry(31, 35)]
  {
  }

  /** The header ranges: `(c[j], c[j+1] - c[j])`. */
  function HeaderTable(idx: seq<byte>): (r: seq<Entry>)
    requires IndexWellFormed(idx)
    ensures |r| == SequenceCount(idx)
  {
    Intervals(Cumulative(idx, HeaderTableStart(idx), SequenceCount(idx)), 0)
  }

  /** The sequence ranges: `(d[j], d[j+1] - d[j] - 1)`, leaving out the
      NUL byte that ends every stored sequence. */
  function SequenceTable(idx: seq<byte>): (r: seq<Entry>)
    requires IndexWellFormed(idx)
    ensures |r| == SequenceCount(idx)
  {
    Intervals(Cumulative(idx, SequenceTableStart(idx), SequenceCount(idx)), 1)
  }

  lemma HeaderEntryAt(idx: seq<byte>, j: nat)
    requires IndexWellFormed(idx) && j < SequenceCount(idx)
    ensures var base := HeaderTableStart(idx);
            HeaderTable(idx)[j] == Entry(U32At(idx, base + 4 * j), U32At(idx, base + 4 * (j + 1)) - U32At(idx, base + 4 * j))
  {
    var base := HeaderTableStart(idx);
    var c := Cumulative(idx, base, SequenceCount(idx));
    IntervalsAt(c, 0, j);
    assert c[j] == U32At(idx, base + 4 * j) && c[j + 1] == U32At(idx, base + 4 * (j + 1));
  }

  lemma SequenceEntryAt(idx: seq<byte>, j: nat)
    requires IndexWellFormed(idx) && j < SequenceCount(idx)
    ensures var base := SequenceTableStart(idx);
            SequenceTable(idx)[j] == Entry(U32At(idx, base + 4 * j), U32At(idx, base + 4 * (j + 1)) - U32At(idx, base + 4 * j) - 1)
  {
    var base := SequenceTableStart(idx);
    var c := Cumulative(idx, base, SequenceCount(idx));
    IntervalsAt(c, 1, j);
    assert c[j] == U32At(idx, base + 4 * j) && c[j + 1] == U32At(idx, base + 4 * (j + 1));
  }

  /** Header ranges tile the header file: each starts where the previous ends. */
  lemma HeaderTableTiles(idx: seq<byte>, j: nat)
    requires IndexWellFormed(idx) && j + 1 < SequenceCount(idx)
    ensures HeaderTable(idx)[j + 1].start == HeaderTable(idx)[j].start + HeaderTable(idx)[j].length
  {
    IntervalsTile(Cumulative(idx, HeaderTableStart(idx), SequenceCount(idx)), 0, j);
  }

  /** Sequence ranges leave exactly one separator byte between records. */
  lemma SequenceTableTiles(idx: seq<byte>, j: nat)
    requires IndexWellFormed(idx) && j + 1 < SequenceCount(idx)
    ensures SequenceTable(idx)[j + 1].start == SequenceTable(idx)[j].start + SequenceTable(idx)[j].length + 1
  {
    IntervalsTile(Cumulative(idx, SequenceTableStart(idx), SequenceCount(idx)), 1, j);
  }

  /** Reads `n + 1` cumulative offsets from `pos` on, the way the parser
      does: one before the loop, then one per iteration, appending
      `(i, a - i - drop)` and moving `i` on to `a`. */
  method ReadOffsetTable(idx: seq<byte>, pos: nat, n: nat, drop: nat) returns (entries: seq<Entry>, next: nat)
    requires pos + 4 * (n + 1) <= |idx|
    ensures entries == Intervals(Cumulative(idx, pos, n), drop)
    ensures next == pos + 4 * (n + 1)
  {
    ghost var c := Cumulative(idx, pos, n);
    var cursor := pos;
    var i := U32At(idx, cursor);
    cursor := cursor + 4;
    entries := [];
    for j := 0 to n
      invariant cursor == pos + 4 * (j + 1)
      invariant i == c[j]
      invariant entries == Intervals(c[..j + 1], drop)
    {
      var a := U32At(idx, cursor);
      cursor := cursor + 4;
      entries := entries + [Entry(i, a - i - drop)];
      i := a;
      assert c[..j + 2][..j + 1] == c[..j + 1];
    }
    assert c[..n + 1] == c;
    next := cursor;
  }

  /** Reads the index file front to back with a cursor, as the parser
      does: title length and title, timestamp length, then a seek to the
      count and a seek to the header table, and the two offset tables. */
  method ReadIndex(idx: seq<byte>) returns (title: string, n: nat, hOff: seq<Entry>, sOff: seq<Entry>)
    requires IndexWellFormed(idx)
    ensures title == Title(idx) && n == SequenceCount(idx)
    ensures hOff == HeaderTable(idx) && sOff == SequenceTable(idx)
  {
    var cursor := 8;
    var t := U32At(idx, cursor);
    cursor := cursor + 4;
    assert t == TitleLength(idx);
    title := AsciiDecode(idx[cursor..cursor + t]);
    cursor := cursor + t;
    var s := U32At(idx, cursor);
    assert s == TimestampLength(idx);
    cursor := t + s + 16;
    n := U32At(idx, cursor);
    assert n == SequenceCount(idx);
    cursor := t + s + 32;
    assert cursor == HeaderTableStart(idx);
    hOff, cursor := ReadOffsetTable(idx, cursor, n, 0);
    assert cursor == SequenceTableStart(idx);
    sOff, cursor := ReadOffsetTable(idx, cursor, n, 1);
  }
}
