/** Files with which the reader does not do what its comments say or what one may expect. */
module LogExamples {
  import opened Coding
  import Crc32c
  import Crc32cVectors
  import opened LogFormat
  import opened LogParse
  import opened LogChunks
  import opened LogReader
  import opened LogSeek
  import opened LogAssembly
  import opened LogDamage
  import opened LogSilence

  /** A record that fills the rest of the first block and one byte of the next. */
  const TORN: Bytes := Zeros(4090)

  lemma TornLayout()
    ensures Layout(0, [TORN]) == [Chunk(0, FIRST, TORN[..4089]), Chunk(4096, LAST, TORN[4089..])]
  {
    var last := TORN[4089..];
    assert last[..1] == last;
    assert Fragments(4096, last, false) == [Chunk(4096, LAST, last)];
    assert Fragments(0, TORN, true) == [Chunk(0, FIRST, TORN[..4089])] + Fragments(4096, last, false);
    assert Layout(0, [TORN]) == Fragments(0, TORN, true) + Layout(4104, []);
  }

  /** The log of that record is intact, and a reader that starts at offset 1 reports corruption. */
  lemma SpuriousReport(checksum: bool)
    ensures Contents(LogFile([TORN]), Config(checksum, 1)).reports != []
  {
    var f, cfg := LogFile([TORN]), Config(checksum, 1);
    TornSpans();
    hide Contents, LogFile, SkipTo, Layout, Spans;
    SeekReports([TORN], |f|, cfg);
    assert f[..|f|] == f;
  }

  lemma TornSpans()
    ensures Spans(Layout(0, [TORN]), |LogFile([TORN])|, 1) && SkipTo(1) == 0
  {
    var cs, f := Layout(0, [TORN]), LogFile([TORN]);
    TornLayout();
    hide Layout;
    LayoutLinked(0, [TORN]);
    AppendStores([], cs);
    assert |f| == cs[1].End();
    assert IsTorn(cs, 1, |f|, 1);
  }

  /** The bytes of two headers: an empty first fragment, as it stands at the end of a block, and a
      last fragment of one byte. */
  lemma HeaderBytes()
    ensures Header(Chunk(4089, FIRST, [])) == [0x64, 0x51, 0xd0, 0xe9, 0, 0, 2]
    ensures Header(Chunk(4096, LAST, [7])) == [0x1a, 0xc1, 0x4d, 0x88, 1, 0, 4]
  {
    Crc32cVectors.OfShort();
    hide Crc32c.Crc;
    assert ToByte(0) == 0 && ToByte(1) == 1 && ToByte(2) == 2 && ToByte(4) == 4;
    assert [2 as bv8] + [] == [2] && [4 as bv8] + [7] == [4, 7];
    assert Crc32c.Mask(0xb346_23a6) == 0xe9d0_5164 && Crc32c.Mask(0x6b21_72e5) == 0x884d_c11a;
    assert Fixed32(0xe9d0_5164) == [0x64, 0x51, 0xd0, 0xe9] && Fixed32(0x884d_c11a) == [0x1a, 0xc1, 0x4d, 0x88];
  }

  /** The length of a fragment that fills a block, low byte first. */
  lemma LengthBytes(data: Bytes)
    requires |data| == 4089
    ensures Header(Chunk(0, FIRST, data))[4..] == [0xf9, 0x0f, 2]
  {
    BytesOf4089();
    hide StoredCrc, Fixed32, ToByte;
  }

  lemma ByteIs(n: nat, b: bv8)
    requires n < 256 && Value(b) == n
    ensures ToByte(n) == b
  {
    ByteRoundTrip(n);
    ValueInjective(ToByte(n), b);
  }

  lemma ValueInjective(a: bv8, b: bv8)
    requires Value(a) == Value(b)
    ensures a == b
  {
  }

  lemma SomeValues()
    ensures Value(0xf9) == 249 && Value(0x0f) == 15 && Value(2) == 2
  {
  }

  lemma BytesOf4089()
    ensures ToByte(4089 % 256) == 0xf9 && ToByte(4089 / 256) == 0x0f && ToByte(2) == 2
  {
    SomeValues();
    hide ToByte, Value;
    ByteIs(249, 0xf9);
    ByteIs(15, 0x0f);
    ByteIs(2, 2);
  }

  /** An empty record and one of a byte. */
  const PAIR: seq<Bytes> := [[], [7]]

  lemma PairLayout()
    ensures Layout(0, PAIR) == [Chunk(0, FULL, []), Chunk(7, FULL, [7])]
  {
    assert PAIR[1..] == [[7]] && PAIR[1..][1..] == [];
    assert [7 as bv8][..1] == [7];
    assert Fragments(0, [], true) == [Chunk(0, FULL, [])];
    assert Fragments(7, [7], true) == [Chunk(7, FULL, [7])];
    assert Layout(7, PAIR[1..]) == Fragments(7, [7], true) + Layout(15, []);
    assert Layout(0, PAIR) == Fragments(0, [], true) + Layout(7, PAIR[1..]);
  }

  /** Clearing the type byte of the first loses both, and a checksumming reader reports nothing. */
  lemma SilentDamage()
    ensures |LogFile(PAIR)| > 6
    ensures var g, c := LogFile(PAIR)[6 := 0], Contents(LogFile(PAIR)[6 := 0], Config(true, 0));
            g != LogFile(PAIR) && c.records == [] && c.reports == []
  {
    hide Layout, LogFile, Contents, Damages, Stored, Spans, Kept, LossFate, BlockEnd;
    var f, cs := LogFile(PAIR), Layout(0, PAIR);
    PairLayout();
    LogStores(PAIR);
    assert Stored(f, cs[0]);
    TypeCleared(f, cs[0]);
    DamageContained(PAIR, f[6 := 0], 0, InBody(6));
    DamageReports(PAIR, f[6 := 0], 0, InBody(6));
    BothLost();
    NothingSpans(cs, |f|);
  }

  lemma TypeCleared(f: Bytes, c: Chunk)
    requires Stored(f, c) && c.off == 0 && c.kind == FULL
    ensures |f| > 6 && f[6 := 0] != f && Damages(f, f[6 := 0], c, InBody(6))
  {
    FirstType(f, c);
    hide Stored;
    assert f[6 := 0][6] != f[6];
  }

  lemma FirstType(f: Bytes, c: Chunk)
    requires Stored(f, c) && c.off == 0 && c.kind == FULL
    ensures |f| >= c.End() && f[6] != 0
  {
    hide StoredCrc, Fixed32;
    assert f[6] == f[c.off..c.End()][6] == ChunkBytes(c)[6];
    assert ChunkBytes(c)[6] == ToByte(FULL);
    hide *;
    ByteRoundTrip(FULL);
    assert Value(0) == 0;
  }

  lemma BothLost()
    ensures Kept(0, PAIR, LossFate(Layout(0, PAIR)[0])) == []
  {
    PairLayout();
    var fate := LossFate(Layout(0, PAIR)[0]);
    forall c | c in Layout(0, PAIR) ensures fate(c).Gone? {}
    hide Layout;
    GoneKeepsNone(0, PAIR, fate);
  }

  lemma NothingSpans(cs: seq<Chunk>, n: nat)
    requires cs == [Chunk(0, FULL, []), Chunk(7, FULL, [7])]
    ensures !Spans(cs, n, BlockEnd(0))
  {
  }

  /** An empty physical record of type 6 with the right checksum. */
  const STOP: Bytes := Fixed32(StoredCrc(EOF, [])) + [0, 0, 6]

  lemma StopFields(buf: Bytes)
    requires STOP <= buf
    ensures IsStop(Config(true, 0), 0, buf) && Length(buf[4], buf[5]) == 0
  {
    hide Crc32c.Crc, Crc32c.Mask, Crc32c.Unmask, Fixed32, DecodeFixed32;
    var crc := Fixed32(StoredCrc(EOF, []));
    assert ToByte(EOF) == 6;
    assert buf[4] == STOP[4] == 0 && buf[5] == STOP[5] == 0 && buf[6] == STOP[6] == 6;
    assert buf[6..7] == [ToByte(EOF)] + [];
    assert buf == crc + buf[4..];
    RoundTrip32(StoredCrc(EOF, []), buf[4..]);
    Crc32c.MaskUnmask(Crc32c.Crc(0, [ToByte(EOF)] + []));
  }

  /** Nothing behind that record is ever read, and nothing is reported. */
  lemma TypeSixEnds(rest: Bytes, checksum: bool)
    ensures var cfg := Config(checksum, 0);
            && ReadRecord(STOP + rest, cfg, 0, Fresh(cfg)) == Call(false, |STOP|, Fresh(cfg).Ended())
            && Contents(STOP + rest, cfg) == Fresh(cfg).Ended()
  {
    var f, cfg := STOP + rest, Config(checksum, 0);
    var buf := BlockFrom(f, 0);
    assert STOP <= buf;
    StopFields(buf);
    NextIsParse(f, cfg, 0);
    hide STOP, Crc32c.Crc, Crc32c.Unmask, DecodeFixed32, Length, TypeCode, Parse, Next, BlockFrom;
    ParseEnds(cfg, 0, buf, |f| < BLOCK);
  }

  /** A physical record with any type byte, a payload and the right checksum. */
  function Foreign(b: bv8, data: Bytes): Bytes
    requires |data| <= BLOCK - HEADER
  {
    Fixed32(Crc32c.Mask(Crc32c.Crc(0, [b] + data))) + [ToByte(|data| % 256), ToByte(|data| / 256), b] + data
  }

  lemma ForeignFields(b: bv8, data: Bytes)
    requires |data| <= BLOCK - HEADER
    ensures var f := Foreign(b, data);
            && |f| == HEADER + |data| && Length(f[4], f[5]) == |data| && f[6] == b && f[HEADER..] == data
            && Crc32c.Crc(0, f[6..]) == Crc32c.Unmask(DecodeFixed32(f))
  {
    hide Crc32c.Crc, Crc32c.Mask, Crc32c.Unmask, Fixed32, DecodeFixed32, ToByte, Length;
    var f, crc := Foreign(b, data), Crc32c.Crc(0, [b] + data);
    LengthRoundTrip(|data|);
    assert f[6..] == [b] + data;
    assert f == Fixed32(Crc32c.Mask(crc)) + f[4..];
    RoundTrip32(Crc32c.Mask(crc), f[4..]);
    Crc32c.MaskUnmask(crc);
  }

  /** A record type that is none of the format's and none of the reader's own is reported, with the
      payload that is lost. Type 7 acts as the reader's code for a bad record: the physical record
      is passed over without a report. */
  lemma ForeignType(b: bv8, data: Bytes, checksum: bool)
    requires |data| <= BLOCK - HEADER && (data == [] ==> b != 0)
    requires TypeCode(b) !in {FULL, FIRST, MIDDLE, LAST, EOF}
    ensures var s := Contents(Foreign(b, data), Config(checksum, 0));
            && s.records == []
            && s.reports == if TypeCode(b) == BAD then [] else [Report(|data|, UnknownType(TypeCode(b)))]
  {
    var f, cfg := Foreign(b, data), Config(checksum, 0);
    hide Foreign, TypeCode, Next, HeaderAt, ReadAll, TakeAll, Stream;
    ForeignNext(b, data, cfg);
    var e := Next(f, cfg, 0);
    OnlyOne(f, cfg, e);
    ReadAllTakes(f, cfg, 0, Fresh(cfg));
    assert [e] + [] == [e];
    TakeOne(cfg, Fresh(cfg), e, []);
    TakeNone(cfg, Take(cfg, Fresh(cfg), e));
  }

  lemma OnlyOne(f: Bytes, cfg: Config, e: Phys)
    requires e == Next(f, cfg, 0) && !e.End? && e.next == |f|
    ensures Stream(f, cfg, 0) == [e]
  {
    HeaderAtFits(|f|);
    NextAtEnd(f, cfg, |f|);
    hide Next;
  }

  lemma ForeignNext(b: bv8, data: Bytes, cfg: Config)
    requires |data| <= BLOCK - HEADER && (data == [] ==> b != 0) && cfg.initial == 0 && TypeCode(b) != EOF
    ensures var f := Foreign(b, data);
            Next(f, cfg, 0) == if TypeCode(b) == BAD then Bad(|f|, []) else Piece(TypeCode(b), data, 0, |f|)
  {
    hide Foreign, Crc32c.Crc, Crc32c.Unmask, DecodeFixed32, Length, TypeCode, BlockFrom, Next;
    var f := Foreign(b, data);
    ForeignFields(b, data);
    ForeignBlock(f);
    TypeIsZero(b);
    NextIsParse(f, cfg, 0);
    assert f[6..HEADER + |data|] == f[6..] && f[HEADER..HEADER + |data|] == f[HEADER..];
  }

  lemma ForeignBlock(f: Bytes)
    requires |f| <= BLOCK
    ensures BlockFrom(f, 0) == f && HeaderAt(0) == 0
  {
  }

  /** A char is signed: from 128 on, its value as an unsigned int is close to 2^32. */
  lemma SignedTypes()
    ensures TypeCode(0x7f) == 0x7f && TypeCode(0x80) == 0xffff_ff80 && TypeCode(0xff) == 0xffff_ffff
  {
  }

  /** A reader that finds nothing at its initial offset skips again when it is called again, and
      its count of consumed bytes falls behind. `found` is what the first call returned. */
  method FallsBehind(data: Bytes, checksum: bool) returns (reader: Reader, found: bool)
    requires |data| <= BLOCK
    ensures !found && reader.At().Drift() >= BLOCK
  {
    var file := new SequentialFile(data);
    reader := new Reader(file, checksum, BLOCK);
    assert Next(data, reader.Cfg(), BLOCK).End?;
    var record, again;
    found, record := reader.ReadRecord();
    again, record := reader.ReadRecord();
  }
}
