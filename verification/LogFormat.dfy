/** The layout of a log file: ibdb/src/log/format.h, and the bytes that
    ibdb/src/log/log_writer.h puts into each block. */
module LogFormat {
  import opened Coding
  import Crc32c

  const BLOCK: nat := 4096
  const HEADER: nat := 7

  // record types
  const ZERO: nat := 0
  const FULL: nat := 1
  const FIRST: nat := 2
  const MIDDLE: nat := 3
  const LAST: nat := 4
  const EOF_TYPE: nat := 5

  /** A file that only grows. */
  class WritableFile {
    var contents: Bytes

    constructor ()
      ensures contents == []
    {
      contents := [];
    }

    method Append(data: Bytes)
      modifies this
      ensures contents == old(contents) + data
    {
      contents := contents + data;
    }
  }

  /** A file that is read front to back. `pos` is the descriptor's offset, which a skip may
      move past the end of the file. */
  class SequentialFile {
    const data: Bytes
    var pos: nat

    constructor (data: Bytes)
      ensures this.data == data && pos == 0
    {
      this.data := data;
      pos := 0;
    }

    method Read(n: nat) returns (r: Bytes)
      modifies this
      ensures pos == if old(pos) >= |data| then old(pos) else if old(pos) + n <= |data| then old(pos) + n else |data|
      ensures r == if pos <= |data| then data[old(pos)..pos] else []
    {
      var end := if pos >= |data| then pos else if pos + n <= |data| then pos + n else |data|;
      r := if end <= |data| then data[pos..end] else [];
      pos := end;
    }

    method Skip(n: nat)
      modifies this
      ensures pos == old(pos) + n
    {
      pos := pos + n;
    }
  }

  // ---------- where physical records go ----------

  function BlockEnd(p: nat): nat { p - p % BLOCK + BLOCK }

  /** Where the next header goes when the file is `p` bytes long: a header is never split
      between blocks. */
  function HeaderAt(p: nat): nat {
    if BLOCK - p % BLOCK < HEADER then BlockEnd(p) else p
  }

  /** One physical record: where its header starts, its type and its payload. */
  datatype Chunk = Chunk(off: nat, kind: nat, data: Bytes) {
    function End(): nat { off + HEADER + |data| }

    /** A physical record lies inside one block. */
    predicate Fits() {
      FULL <= kind <= LAST && End() <= BlockEnd(off)
    }
  }

  function Kind(begin: bool, end: bool): nat {
    if begin && end then FULL else if begin then FIRST else if end then LAST else MIDDLE
  }

  function Avail(off: nat): nat
    requires HeaderAt(off) == off
  {
    BLOCK - off % BLOCK - HEADER
  }

  /** The physical records of `rec`, or of the rest of it when `begin` is false, in a file of
      `start` bytes. */
  function Fragments(start: nat, rec: Bytes, begin: bool): (cs: seq<Chunk>)
    ensures |cs| > 0 && cs[0].off == HeaderAt(start)
    decreases |rec|, if Avail(HeaderAt(start)) == 0 then 1 else 0
  {
    var off := HeaderAt(start);
    var n := if |rec| < Avail(off) then |rec| else Avail(off);
    var c := Chunk(off, Kind(begin, n == |rec|), rec[..n]);
    if n == |rec| then [c] else [c] + Fragments(c.End(), rec[n..], false)
  }

  function EndOf(start: nat, cs: seq<Chunk>): nat {
    if cs == [] then start else cs[|cs| - 1].End()
  }

  /** The physical records of a list of records appended to a file of `start` bytes. */
  function Layout(start: nat, recs: seq<Bytes>): seq<Chunk>
    decreases |recs|
  {
    if recs == [] then []
    else
      var cs := Fragments(start, recs[0], true);
      cs + Layout(EndOf(start, cs), recs[1..])
  }

  /** Each physical record starts where the one before it says and stays in its block. */
  ghost predicate Linked(p: nat, cs: seq<Chunk>)
    decreases |cs|
  {
    cs == [] || (cs[0].off == HeaderAt(p) && cs[0].Fits() && Linked(cs[0].End(), cs[1..]))
  }

  lemma HeaderAtFits(p: nat)
    ensures p <= HeaderAt(p) <= BlockEnd(p)
    ensures HeaderAt(p) + HEADER <= BlockEnd(HeaderAt(p))
    ensures HeaderAt(HeaderAt(p)) == HeaderAt(p)
    ensures BlockEnd(HeaderAt(p)) == HeaderAt(p) + HEADER + Avail(HeaderAt(p))
  {
  }

  /** A header follows what is before it directly, unless the block has no room for it: then it
      begins the next block, and fewer bytes than a header are left unused. */
  lemma HeaderPlace(p: nat)
    ensures HeaderAt(p) - p < HEADER
    ensures HeaderAt(p) == p <==> p % BLOCK <= 4089
    ensures HeaderAt(p) != p ==> HeaderAt(p) % 4096 == 0
  {
  }

  lemma {:induction false} FragmentsLinked(start: nat, rec: Bytes, begin: bool)
    ensures Linked(start, Fragments(start, rec, begin))
    decreases |rec|, if Avail(HeaderAt(start)) == 0 then 1 else 0
  {
    var off := HeaderAt(start);
    HeaderAtFits(start);
    var n := if |rec| < Avail(off) then |rec| else Avail(off);
    if n < |rec| {
      var c := Chunk(off, Kind(begin, n == |rec|), rec[..n]);
      FragmentsLinked(c.End(), rec[n..], false);
      assert Fragments(start, rec, begin)[1..] == Fragments(c.End(), rec[n..], false);
    }
  }

  lemma {:induction false} LinkedConcat(p: nat, x: seq<Chunk>, y: seq<Chunk>)
    ensures Linked(p, x + y) <==> Linked(p, x) && Linked(EndOf(p, x), y)
    ensures EndOf(p, x + y) == EndOf(EndOf(p, x), y)
    decreases |x|
  {
    if x == [] {
      assert x + y == y;
    } else {
      assert (x + y)[1..] == x[1..] + y;
      LinkedConcat(x[0].End(), x[1..], y);
    }
  }

  lemma {:induction false} LayoutLinked(start: nat, recs: seq<Bytes>)
    ensures Linked(start, Layout(start, recs))
    decreases |recs|
  {
    if recs != [] {
      var cs := Fragments(start, recs[0], true);
      FragmentsLinked(start, recs[0], true);
      LayoutLinked(EndOf(start, cs), recs[1..]);
      LinkedConcat(start, cs, Layout(EndOf(start, cs), recs[1..]));
    }
  }

  /** Physical records follow one another without overlap. */
  lemma {:induction false} LinkedOrdered(p: nat, cs: seq<Chunk>, i: nat, j: nat)
    requires Linked(p, cs)
    requires i < j < |cs|
    ensures p <= cs[i].off && cs[i].End() <= cs[j].off
    decreases |cs|
  {
    if i > 0 {
      LinkedOrdered(cs[0].End(), cs[1..], i - 1, j - 1);
    } else if j > 1 {
      LinkedOrdered(cs[0].End(), cs[1..], 0, j - 1);
    }
  }

  lemma {:induction false} LinkedAt(p: nat, cs: seq<Chunk>, i: nat)
    requires Linked(p, cs)
    requires i < |cs|
    ensures cs[i].off == HeaderAt(EndOf(p, cs[..i])) && cs[i].Fits() && p <= cs[i].off
    ensures Linked(EndOf(p, cs[..i]), cs[i..])
  {
    assert cs == cs[..i] + cs[i..];
    LinkedConcat(p, cs[..i], cs[i..]);
    if i > 0 { LinkedOrdered(p, cs, 0, i); }
  }

  // ---------- bytes ----------

  function StoredCrc(kind: nat, data: Bytes): bv32
    requires kind < 256
  {
    Crc32c.Mask(Crc32c.Crc(0, [ToByte(kind)] + data))
  }

  /** Checksum (4 bytes), length (2 bytes) and type (1 byte). */
  function Header(c: Chunk): (b: Bytes)
    requires c.Fits()
    ensures |b| == HEADER
  {
    Fixed32(StoredCrc(c.kind, c.data)) + [ToByte(|c.data| % 256), ToByte(|c.data| / 256), ToByte(c.kind)]
  }

  function ChunkBytes(c: Chunk): (b: Bytes)
    requires c.Fits()
    ensures |b| == HEADER + |c.data|
  {
    Header(c) + c.data
  }

  function Zeros(n: nat): (z: Bytes)
    ensures |z| == n
  {
    seq(n, _ => 0 as bv8)
  }

  /** A file after its physical records have been appended, with zeros in the block trailers. */
  function Append(f: Bytes, cs: seq<Chunk>): Bytes
    requires Linked(|f|, cs)
    decreases |cs|
  {
    if cs == [] then f
    else Append(f + Zeros(cs[0].off - |f|) + ChunkBytes(cs[0]), cs[1..])
  }

  ghost predicate Stored(f: Bytes, c: Chunk) {
    c.Fits() && c.End() <= |f| && f[c.off..c.End()] == ChunkBytes(c)
  }

  lemma {:induction false} AppendStores(f: Bytes, cs: seq<Chunk>)
    requires Linked(|f|, cs)
    ensures var g := Append(f, cs);
            |g| == EndOf(|f|, cs) && f <= g && forall i :: 0 <= i < |cs| ==> Stored(g, cs[i])
    decreases |cs|
  {
    hide ChunkBytes, HeaderAt, BlockEnd;
    if cs != [] {
      HeaderAtFits(|f|);
      var f1 := f + Zeros(cs[0].off - |f|) + ChunkBytes(cs[0]);
      AppendStores(f1, cs[1..]);
      var g := Append(f, cs);
      assert g[..|f1|] == f1;
      assert f1[cs[0].off..cs[0].End()] == ChunkBytes(cs[0]);
      assert g[cs[0].off..cs[0].End()] == g[..|f1|][cs[0].off..cs[0].End()];
      forall i | 0 <= i < |cs| ensures Stored(g, cs[i]) {
        if i > 0 { assert cs[i] == cs[1..][i - 1]; }
      }
    }
  }

  /** The bytes between physical records are zero. */
  lemma {:induction false} TrailersAreZero(f: Bytes, cs: seq<Chunk>, i: nat, p: nat)
    requires Linked(|f|, cs) && i < |cs| && EndOf(|f|, cs[..i]) <= p < cs[i].off
    ensures p < |Append(f, cs)| && Append(f, cs)[p] == 0
    decreases |cs|
  {
    hide ChunkBytes, HeaderAt, BlockEnd;
    HeaderAtFits(|f|);
    var f1 := f + Zeros(cs[0].off - |f|) + ChunkBytes(cs[0]);
    AppendStores(f1, cs[1..]);
    if i == 0 {
      assert cs[..0] == [] && f1[p] == 0;
    } else {
      assert cs[..i][1..] == cs[1..][..i - 1];
      TrailersAreZero(f1, cs[1..], i - 1, p);
    }
  }

  lemma {:induction false} AppendConcat(f: Bytes, x: seq<Chunk>, y: seq<Chunk>)
    requires Linked(|f|, x) && Linked(EndOf(|f|, x), y)
    ensures Linked(|f|, x + y) && |Append(f, x)| == EndOf(|f|, x)
    ensures Append(f, x + y) == Append(Append(f, x), y)
    decreases |x|
  {
    hide ChunkBytes, HeaderAt, BlockEnd;
    LinkedConcat(|f|, x, y);
    AppendStores(f, x);
    if x == [] {
      assert x + y == y;
    } else {
      HeaderAtFits(|f|);
      assert (x + y)[1..] == x[1..] + y;
      AppendConcat(f + Zeros(x[0].off - |f|) + ChunkBytes(x[0]), x[1..], y);
    }
  }

  /** A file after AddRecord, or after the rest of one when `begin` is false. */
  function AppendRecord(f: Bytes, rec: Bytes, begin: bool): Bytes {
    FragmentsLinked(|f|, rec, begin);
    Append(f, Fragments(|f|, rec, begin))
  }

  /** The file that AddRecord calls leave behind when they start from an empty file. */
  function LogFile(recs: seq<Bytes>): Bytes {
    LayoutLinked(0, recs);
    Append([], Layout(0, recs))
  }

  /** All physical records of a log are in the file, and nothing follows them. */
  lemma LogStores(recs: seq<Bytes>)
    ensures var f, cs := LogFile(recs), Layout(0, recs);
            Linked(0, cs) && |f| == EndOf(0, cs) && forall i :: 0 <= i < |cs| ==> Stored(f, cs[i])
  {
    LayoutLinked(0, recs);
    AppendStores([], Layout(0, recs));
  }

  lemma {:induction false} LayoutConcat(start: nat, x: seq<Bytes>, y: seq<Bytes>)
    ensures Layout(start, x + y) == Layout(start, x) + Layout(EndOf(start, Layout(start, x)), y)
    decreases |x|
  {
    hide Fragments, HeaderAt, BlockEnd, Linked;
    if x == [] {
      assert x + y == y;
    } else {
      var cs := Fragments(start, x[0], true);
      assert (x + y)[1..] == x[1..] + y;
      LayoutConcat(EndOf(start, cs), x[1..], y);
      FragmentsLinked(start, x[0], true);
      LayoutLinked(EndOf(start, cs), x[1..]);
      LinkedConcat(start, cs, Layout(EndOf(start, cs), x[1..]));
    }
  }

  /** The file that AddRecord calls leave behind when they start from any file. */
  function Extended(f: Bytes, recs: seq<Bytes>): Bytes {
    LayoutLinked(|f|, recs);
    Append(f, Layout(|f|, recs))
  }

  /** `Extended` is what one AddRecord after another produces. */
  lemma ExtendedGrows(f: Bytes, recs: seq<Bytes>, rec: Bytes)
    ensures Extended(f, []) == f
    ensures Extended(f, recs + [rec]) == AppendRecord(Extended(f, recs), rec, true)
  {
    assert Extended(f, []) == f;
    hide ChunkBytes, Fragments, Append;
    var x := Layout(|f|, recs);
    LayoutLinked(|f|, recs);
    AppendStores(f, x);
    var p := EndOf(|f|, x);
    var cs := Fragments(p, rec, true);
    FragmentsLinked(p, rec, true);
    assert Layout(p, [rec]) == cs by {
      assert [rec][1..] == [];
      assert cs + Layout(EndOf(p, cs), []) == cs;
    }
    LayoutConcat(|f|, recs, [rec]);
    AppendConcat(f, x, cs);
  }

  /** The same for `LogFile`. */
  lemma LogFileGrows(recs: seq<Bytes>, rec: Bytes)
    ensures LogFile([]) == []
    ensures LogFile(recs + [rec]) == AppendRecord(LogFile(recs), rec, true)
  {
    hide Layout, Append, AppendRecord;
    ExtendedGrows([], recs, rec);
  }
}
