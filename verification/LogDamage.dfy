/** What one damaged physical record costs. */
module LogDamage {
  import opened Coding
  import Crc32c
  import opened LogFormat
  import opened LogParse
  import opened LogChunks
  import opened LogAssembly

  /** Damage to the stored checksum, to the length, or to four consecutive bytes of type and
      payload. */
  datatype Place = InChecksum | InLength | InBody(at: nat) {
    predicate Covers(c: Chunk, i: nat) {
      match this
      case InChecksum => c.off <= i < c.off + 4
      case InLength => c.off + 4 <= i < c.off + 6
      case InBody(at) => c.off + 6 <= i < c.End() && at <= i < at + 4
    }
  }

  /** The length of the physical record at `c` runs past the end of its block, and that block
      is not the last, partial one. */
  predicate Overruns(g: Bytes, c: Chunk) {
    && c.End() <= |g| && BlockEnd(c.off) <= |g|
    && c.off + HEADER + Length(g[c.off + 4], g[c.off + 5]) > BlockEnd(c.off)
  }

  /** `g` is `f` with the physical record `c` damaged. A damaged length is one that runs past the
      end of the block: any other is a matter of which bytes the checksum then covers. */
  ghost predicate Damages(f: Bytes, g: Bytes, c: Chunk, place: Place) {
    && |g| == |f| && g != f
    && (forall i :: 0 <= i < |f| && f[i] != g[i] ==> place.Covers(c, i))
    && (place.InLength? ==> Overruns(g, c))
  }

  /** The damaged physical record, byte for byte. */
  ghost predicate Altered(x: Bytes, y: Bytes) {
    && |x| == |y| >= HEADER && x[4] == y[4] && x[5] == y[5]
    && if x[..4] == y[..4] then x[6..] != y[6..] && exists k: nat :: Crc32c.DifferInWindow(x[6..], y[6..], k)
       else x[6..] == y[6..]
  }

  lemma DamagesAlters(f: Bytes, g: Bytes, c: Chunk, place: Place)
    requires c.End() <= |f| && Damages(f, g, c, place) && !place.InLength?
    ensures Altered(f[c.off..c.End()], g[c.off..c.End()])
  {
    var x, y := f[c.off..c.End()], g[c.off..c.End()];
    assert forall i :: 0 <= i < |x| ==> x[i] == f[c.off + i] && y[i] == g[c.off + i];
    var i :| 0 <= i < |f| && f[i] != g[i];
    assert x[i - c.off] != y[i - c.off];
    match place
    case InLength =>
    case InChecksum =>
      assert x[6..] == y[6..];
      assert x[..4][i - c.off] != y[..4][i - c.off];
    case InBody(at) =>
      assert x[..4] == y[..4];
      var k := if at >= c.off + 6 then at - c.off - 6 else 0;
      assert x[6..][i - c.off - 6] != y[6..][i - c.off - 6];
      assert Crc32c.DifferInWindow(x[6..], y[6..], k);
  }

  /** The checksum of the damaged record no longer matches. */
  lemma ChecksumFails(x: Bytes, y: Bytes)
    requires Altered(x, y)
    requires Crc32c.Crc(0, x[6..]) == Crc32c.Unmask(DecodeFixed32(x))
    ensures Crc32c.Crc(0, y[6..]) != Crc32c.Unmask(DecodeFixed32(y))
  {
    hide Crc32c.Crc, Crc32c.Unmask, Crc32c.Mask, DecodeFixed32, Crc32c.DifferInWindow;
    if x[..4] == y[..4] {
      SameDecode(x, y);
      var k: nat :| Crc32c.DifferInWindow(x[6..], y[6..], k);
      Crc32c.BurstDetected(0, x[6..], y[6..], k);
    } else if Crc32c.Unmask(DecodeFixed32(x)) == Crc32c.Unmask(DecodeFixed32(y)) {
      Crc32c.MaskUnmask(DecodeFixed32(x));
      Crc32c.MaskUnmask(DecodeFixed32(y));
      DecodeInjective32(x, y);
    }
  }

  lemma SameDecode(x: Bytes, y: Bytes)
    requires |x| >= 4 && |y| >= 4 && x[..4] == y[..4]
    ensures DecodeFixed32(x) == DecodeFixed32(y)
  {
    assert x[0] == x[..4][0] && x[1] == x[..4][1] && x[2] == x[..4][2] && x[3] == x[..4][3];
  }

  /** What a reader tells about `bytes` bytes that it drops because of a damaged physical
      record: nothing, if it takes the record for unused space. */
  function Dropped(c: Chunk, kind: bv8, bytes: nat): seq<Report> {
    if c.data == [] && kind == 0 then [] else [Report(bytes, ChecksumMismatch)]
  }

  /** Where the rest of the block with offset `q` ends. */
  function LossEnd(g: Bytes, q: nat): nat { if BlockEnd(q) <= |g| then BlockEnd(q) else |g| }

  /** What the reader makes of the damaged physical record. */
  function DamagedEvent(g: Bytes, c: Chunk): Phys
    requires c.End() <= |g|
  {
    var bytes := LossEnd(g, c.off) - c.off;
    Bad(LossEnd(g, c.off),
        if Overruns(g, c) then [Report(bytes, BadRecordLength)] else Dropped(c, g[c.off + 6], bytes))
  }

  lemma TypeIsZero(b: bv8)
    ensures TypeCode(b) == ZERO <==> b == 0
  {
  }

  /** The length and the checksum of a buffer that starts with an altered physical record. */
  lemma DamagedFields(c: Chunk, y: Bytes, buf: Bytes)
    requires c.Fits() && Altered(ChunkBytes(c), y) && |buf| >= |y| && buf[..|y|] == y
    ensures |y| == HEADER + |c.data| && Length(buf[4], buf[5]) == |c.data| && buf[6] == y[6]
    ensures Crc32c.Crc(0, buf[6..|y|]) != Crc32c.Unmask(DecodeFixed32(buf))
  {
    hide Crc32c.Crc, Crc32c.Unmask, DecodeFixed32, ChunkBytes, Length, TypeCode;
    var x, n := ChunkBytes(c), HEADER + |c.data|;
    assert x[..n] == x && x[6..n] == x[6..];
    FieldsOf(x, c);
    ChecksumFails(x, y);
    hide Altered;
    assert buf[4] == y[4] == x[4] && buf[5] == y[5] == x[5] by { AlteredLength(x, y); }
    AlteredLength(x, y);
    assert buf[6..n] == y[6..];
    assert buf[..4] == y[..4];
    SameDecode(buf, y);
  }

  /** A buffer that starts with an altered physical record. */
  lemma ParseDamaged(q: nat, c: Chunk, y: Bytes, buf: Bytes, eof: bool)
    requires c.Fits() && Altered(ChunkBytes(c), y) && |buf| >= |y| && buf[..|y|] == y
    ensures Parse(Config(true, 0), q, buf, eof) == Bad(q + |buf|, Dropped(c, buf[6], |buf|))
  {
    hide Crc32c.Crc, Crc32c.Unmask, DecodeFixed32, ChunkBytes, Length, TypeCode, Altered;
    DamagedFields(c, y, buf);
    TypeIsZero(buf[6]);
  }

  lemma AlteredLength(x: Bytes, y: Bytes)
    requires Altered(x, y)
    ensures |x| == |y| >= HEADER && x[4] == y[4] && x[5] == y[5]
  {
  }

  /** A checksumming reader drops the rest of the block. */
  lemma NextDamaged(f: Bytes, g: Bytes, p: nat, c: Chunk, place: Place)
    requires Stored(f, c) && Damages(f, g, c, place) && HeaderAt(p) == c.off
    ensures c.End() <= |g| && Next(g, Config(true, 0), p) == DamagedEvent(g, c)
  {
    hide Altered, ChunkBytes, Damages, HeaderAt, Parse, Next, BlockFrom, LossEnd, Dropped, BlockEnd, Stored, Chunk.Fits;
    hide Overruns, Length;
    StoredFits(f, g, c, place);
    BufferedBlock(g, c);
    NextIsParse(g, Config(true, 0), p);
    if place.InLength? {
      ParseOverrun(g, c);
    } else {
      StoredAlters(f, g, c, place);
      LengthIsKept(c, g);
      ParseDamaged(c.off, c, g[c.off..c.End()], BlockFrom(g, c.off), |g| < BlockEnd(c.off));
    }
  }

  lemma StoredFits(f: Bytes, g: Bytes, c: Chunk, place: Place)
    requires Stored(f, c) && Damages(f, g, c, place)
    ensures c.Fits() && c.End() <= |g| && (place.InLength? ==> Overruns(g, c))
  {
  }

  /** A length that runs past the end of a whole block. */
  lemma ParseOverrun(g: Bytes, c: Chunk)
    requires c.Fits() && Overruns(g, c)
    ensures Parse(Config(true, 0), c.off, BlockFrom(g, c.off), |g| < BlockEnd(c.off)) == DamagedEvent(g, c)
  {
    hide Crc32c.Crc, Crc32c.Unmask, DecodeFixed32, Length, TypeCode, Dropped;
    var buf := BlockFrom(g, c.off);
    assert buf[4] == g[c.off + 4] && buf[5] == g[c.off + 5];
  }

  /** Damage elsewhere leaves a length that fits the block. */
  lemma LengthIsKept(c: Chunk, g: Bytes)
    requires c.Fits() && c.End() <= |g| && Altered(ChunkBytes(c), g[c.off..c.End()])
    ensures !Overruns(g, c)
  {
    hide ChunkBytes, Length, Altered;
    var y := g[c.off..c.End()];
    AlteredLength(ChunkBytes(c), y);
    DamagedFields(c, y, y);
    assert y[4] == g[c.off + 4] && y[5] == g[c.off + 5];
  }

  lemma StoredAlters(f: Bytes, g: Bytes, c: Chunk, place: Place)
    requires Stored(f, c) && Damages(f, g, c, place) && !place.InLength?
    ensures c.Fits() && c.End() <= |g| && Altered(ChunkBytes(c), g[c.off..c.End()])
  {
    DamagesAlters(f, g, c, place);
    hide Altered, ChunkBytes;
  }

  lemma BufferedBlock(g: Bytes, c: Chunk)
    requires c.Fits() && c.End() <= |g|
    ensures c.End() <= LossEnd(g, c.off) <= |g|
    ensures var buf := BlockFrom(g, c.off);
            && |buf| == LossEnd(g, c.off) - c.off >= c.End() - c.off
            && buf[..c.End() - c.off] == g[c.off..c.End()] && buf[6] == g[c.off + 6]
  {
  }

  lemma Untouched(f: Bytes, g: Bytes, d: Chunk, place: Place, c: Chunk)
    requires Damages(f, g, d, place) && Stored(f, c)
    requires c.End() <= d.off || d.End() <= c.off
    ensures Stored(g, c)
  {
    assert f[c.off..c.End()] == g[c.off..c.End()];
  }

  /** The damaged record is met as a bad one, and the rest of its block is never seen. */
  function DamageFate(d: Chunk, e: Phys): Fates
    requires e.Bad?
  {
    (c: Chunk) =>
      if c.off == d.off then Broken(e.next, e.drop)
      else if d.off < c.off < BlockEnd(d.off) then Gone
      else Intact
  }

  /** The same for the records: a physical record is lost from the damaged one to the end of
      the block, and no other. */
  function LossFate(d: Chunk): Fates {
    (c: Chunk) => if d.off <= c.off < BlockEnd(d.off) then Gone else Intact
  }

  /** The stream after the damaged block. */
  lemma {:induction false} StreamAfter(g: Bytes, cfg: Config, p: nat, cs: seq<Chunk>, d: Chunk, fate: Fates)
    requires Linked(p, cs) && |g| == EndOf(p, cs) && cfg.initial == 0
    requires forall i :: 0 <= i < |cs| ==> Stored(g, cs[i])
    requires forall i :: 0 <= i < |cs| ==> fate(cs[i]).Intact?
    ensures Stream(g, cfg, p) == Events(cs, fate)
    decreases |cs|
  {
    hide Stored, Next;
    if cs == [] {
      HeaderAtFits(p);
      NextAtEnd(g, cfg, p);
    } else {
      assert Stored(g, cs[0]);
      NextStored(g, cfg, p, cs[0]);
      assert forall i :: 0 <= i < |cs[1..]| ==> cs[1..][i] == cs[i + 1];
      StreamAfter(g, cfg, cs[0].End(), cs[1..], d, fate);
    }
  }

  lemma LastBlock(n: nat, d: Chunk)
    requires d.End() <= n <= BlockEnd(d.off)
    ensures BlockEnd(d.off) <= n ==> n == BlockEnd(d.off)
  {
  }

  lemma StaysInBlock(q: nat, c: Chunk)
    requires c.Fits() && q <= c.off < BlockEnd(q)
    ensures c.End() <= BlockEnd(q)
  {
  }

  /** The rest of the damaged block. */
  lemma {:induction false} StreamSkips(f: Bytes, g: Bytes, cfg: Config, p: nat, cs: seq<Chunk>, d: Chunk,
                                       place: Place, fate: Fates)
    requires Damages(f, g, d, place) && Linked(p, cs) && |f| == EndOf(p, cs) && cfg.initial == 0
    requires d.End() <= p <= BlockEnd(d.off)
    requires forall i :: 0 <= i < |cs| ==> Stored(f, cs[i])
    requires forall i :: 0 <= i < |cs| ==> fate(cs[i]) == if d.off < cs[i].off < BlockEnd(d.off) then Gone else Intact
    ensures Stream(g, cfg, if BlockEnd(d.off) <= |g| then BlockEnd(d.off) else |g|) == Events(cs, fate)
    decreases |cs|
  {
    hide Next, Stored, Damages, HeaderAt, BlockEnd, Chunk.Fits;
    DamagesLength(f, g, d, place);
    if cs == [] {
      HeaderAtFits(|g|);
      NextAtEnd(g, cfg, |g|);
      LastBlock(|g|, d);
    } else {
      var c, more := cs[0], cs[1..];
      assert forall i :: 0 <= i < |more| ==> more[i] == cs[i + 1];
      HeaderAtFits(p);
      if c.off < BlockEnd(d.off) {
        StaysInBlock(d.off, c);
        StreamSkips(f, g, cfg, c.End(), more, d, place, fate);
      } else {
        BlockBoundary(p, d.off);
        StoredReaches(f, c);
        EndIsReached(p, cs);
        forall i | 0 <= i < |cs| ensures Stored(g, cs[i]) && fate(cs[i]).Intact? {
          if i > 0 { LinkedOrdered(p, cs, 0, i); }
          Untouched(f, g, d, place, cs[i]);
        }
        LinkedElsewhere(p, BlockEnd(d.off), cs);
        StreamAfter(g, cfg, BlockEnd(d.off), cs, d, fate);
      }
    }
  }

  lemma DamagesLength(f: Bytes, g: Bytes, d: Chunk, place: Place)
    requires Damages(f, g, d, place)
    ensures |f| == |g|
  {
  }

  lemma StoredReaches(f: Bytes, c: Chunk)
    requires Stored(f, c)
    ensures c.End() <= |f|
  {
  }

  lemma EndIsReached(p: nat, cs: seq<Chunk>)
    requires Linked(p, cs) && cs != []
    ensures EndOf(p, cs) >= cs[0].End()
  {
    if |cs| > 1 { LinkedOrdered(p, cs, 0, |cs| - 1); }
  }

  lemma LinkedElsewhere(p: nat, b: nat, cs: seq<Chunk>)
    requires Linked(p, cs) && cs != [] && HeaderAt(b) == cs[0].off
    ensures Linked(b, cs) && EndOf(b, cs) == EndOf(p, cs)
  {
  }

  lemma BlockBoundary(p: nat, q: nat)
    requires q <= p <= BlockEnd(q) <= HeaderAt(p)
    ensures HeaderAt(BlockEnd(q)) == HeaderAt(p) == BlockEnd(q)
  {
  }

  /** The stream from the damaged record on. */
  lemma StreamAtDamage(f: Bytes, g: Bytes, cfg: Config, p: nat, cs: seq<Chunk>, place: Place, fate: Fates)
    requires cs != [] && Damages(f, g, cs[0], place) && Linked(p, cs) && |f| == EndOf(p, cs) && cfg == Config(true, 0)
    requires forall i :: 0 <= i < |cs| ==> Stored(f, cs[i])
    requires var e := Next(g, cfg, cs[0].off); e.Bad? && fate == DamageFate(cs[0], e)
    ensures Stream(g, cfg, p) == Events(cs, fate)
  {
    hide Stored, Damages, Next, HeaderAt, BlockEnd, EndOf, Chunk.Fits, DamageFate;
    var c, more := cs[0], cs[1..];
    assert forall i :: 0 <= i < |more| ==> more[i] == cs[i + 1];
    assert Stored(f, c);
    NextDamaged(f, g, p, c, place);
    NextSame(g, cfg, p);
    DamagedRest(p, cs, fate, Next(g, cfg, p));
    FateAt(c, Next(g, cfg, p));
    RestOf(p, cs);
    StreamSkips(f, g, cfg, c.End(), more, c, place, fate);
  }

  lemma FateAt(d: Chunk, e: Phys)
    requires e.Bad?
    ensures DamageFate(d, e)(d) == Broken(e.next, e.drop)
    ensures forall c: Chunk :: c.off < d.off ==> DamageFate(d, e)(c).Intact?
  {
  }

  lemma RestOf(p: nat, cs: seq<Chunk>)
    requires Linked(p, cs) && cs != []
    ensures Linked(cs[0].End(), cs[1..]) && EndOf(cs[0].End(), cs[1..]) == EndOf(p, cs)
  {
  }

  lemma StreamStep(g: Bytes, cfg: Config, p: nat, cs: seq<Chunk>, fate: Fates)
    requires cs != [] && fate(cs[0]).Intact?
    requires Next(g, cfg, p) == Piece(cs[0].kind, cs[0].data, cs[0].off, cs[0].End())
    requires Stream(g, cfg, cs[0].End()) == Events(cs[1..], fate)
    ensures Stream(g, cfg, p) == Events(cs, fate)
  {
    hide Next;
  }

  /** The whole stream of the damaged file. */
  lemma {:induction false} StreamDamaged(f: Bytes, g: Bytes, cfg: Config, p: nat, cs: seq<Chunk>, j: nat,
                                         place: Place, fate: Fates)
    requires j < |cs| && Damages(f, g, cs[j], place) && Linked(p, cs) && |f| == EndOf(p, cs) && cfg == Config(true, 0)
    requires forall i :: 0 <= i < |cs| ==> Stored(f, cs[i])
    requires var e := Next(g, cfg, cs[j].off); e.Bad? && fate == DamageFate(cs[j], e)
    ensures Stream(g, cfg, p) == Events(cs, fate)
    decreases |cs|
  {
    hide Stored, Damages, Next, HeaderAt, EndOf, BlockEnd, Chunk.Fits, DamageFate, Stream, Events, Linked;
    if j == 0 {
      StreamAtDamage(f, g, cfg, p, cs, place, fate);
    } else {
      var more := cs[1..];
      assert forall i :: 0 <= i < |more| ==> more[i] == cs[i + 1];
      BeforeDamage(f, g, cfg, p, cs, j, place);
      FateAt(cs[j], Next(g, cfg, cs[j].off));
      RestOf(p, cs);
      StreamDamaged(f, g, cfg, cs[0].End(), more, j - 1, place, fate);
      StreamStep(g, cfg, p, cs, fate);
    }
  }

  /** What lies before the damaged record arrives. */
  lemma BeforeDamage(f: Bytes, g: Bytes, cfg: Config, p: nat, cs: seq<Chunk>, j: nat, place: Place)
    requires 0 < j < |cs| && Damages(f, g, cs[j], place) && Linked(p, cs) && Stored(f, cs[0]) && cfg.initial == 0
    ensures cs[0].off < cs[j].off
    ensures Next(g, cfg, p) == Piece(cs[0].kind, cs[0].data, cs[0].off, cs[0].End())
  {
    LinkedOrdered(p, cs, 0, j);
    Untouched(f, g, cs[j], place, cs[0]);
    hide Stored, Damages, Next, HeaderAt;
    NextStored(g, cfg, p, cs[0]);
  }

  lemma DamagedRest(p: nat, cs: seq<Chunk>, fate: Fates, e: Phys)
    requires Linked(p, cs) && cs != [] && e.Bad? && fate == DamageFate(cs[0], e)
    ensures forall i :: 0 <= i < |cs[1..]| ==>
      fate(cs[1..][i]) == if cs[0].off < cs[1..][i].off < BlockEnd(cs[0].off) then Gone else Intact
    ensures cs[0].End() <= BlockEnd(cs[0].off)
  {
    forall i | 0 <= i < |cs[1..]| ensures cs[1..][i].off > cs[0].off {
      LinkedOrdered(p, cs, 0, i + 1);
    }
  }

  lemma NextSame(g: Bytes, cfg: Config, p: nat)
    requires !Next(g, cfg, p).End?
    ensures Next(g, cfg, HeaderAt(p)) == Next(g, cfg, p)
  {
    HeaderAtFits(p);
    hide Parse;
  }

  /** After the damaged record comes the damaged block's rest, and then everything arrives. */
  lemma {:induction false} OrderlyAfter(p: nat, cs: seq<Chunk>, d: Chunk, fate: Fates, intact: bool)
    requires Linked(p, cs)
    requires intact ==> HeaderAt(p) >= BlockEnd(d.off)
    requires forall i :: 0 <= i < |cs| ==> fate(cs[i]) == if d.off < cs[i].off < BlockEnd(d.off) then Gone else Intact
    requires d.off < p
    ensures Orderly(intact, cs, fate)
    decreases |cs|
  {
    if cs != [] {
      assert forall i :: 0 <= i < |cs[1..]| ==> cs[1..][i] == cs[i + 1];
      HeaderAtFits(p);
      HeaderAtFits(cs[0].End());
      OrderlyAfter(cs[0].End(), cs[1..], d, fate, fate(cs[0]).Intact?);
    }
  }

  lemma {:induction false} OrderlyDamage(p: nat, cs: seq<Chunk>, j: nat, fate: Fates, e: Phys, intact: bool)
    requires Linked(p, cs) && j < |cs| && e.Bad? && fate == DamageFate(cs[j], e)
    ensures Orderly(intact, cs, fate)
    decreases |cs|
  {
    if j > 0 {
      LinkedOrdered(p, cs, 0, j);
      OrderlyDamage(cs[0].End(), cs[1..], j - 1, fate, e, true);
    } else {
      DamagedRest(p, cs, fate, e);
      OrderlyAfter(cs[0].End(), cs[1..], cs[0], fate, false);
    }
  }

  lemma {:induction false} KeptAgree(start: nat, recs: seq<Bytes>, x: Fates, y: Fates)
    requires forall c: Chunk :: x(c).Intact? <==> y(c).Intact?
    ensures Kept(start, recs, x) == Kept(start, recs, y)
    decreases |recs|
  {
    if recs != [] {
      KeptAgree(EndOf(start, Fragments(start, recs[0], true)), recs[1..], x, y);
    }
  }

  /** Damage to the checksum, the length, the type or the payload of one physical record costs exactly the
      records that have a physical record at or after the damaged one in its block. All other
      records come back unaltered, in order and with their offsets. */
  lemma DamageContained(recs: seq<Bytes>, g: Bytes, j: nat, place: Place)
    requires j < |Layout(0, recs)|
    requires Damages(LogFile(recs), g, Layout(0, recs)[j], place)
    ensures Contents(g, Config(true, 0)).records == Kept(0, recs, LossFate(Layout(0, recs)[j]))
  {
    var cs, cfg := Layout(0, recs), Config(true, 0);
    DamagedContents(recs, g, j, place);
    var fate := DamageFate(cs[j], DamagedEvent(g, cs[j]));
    LayoutLinked(0, recs);
    KeptAgree(0, recs, fate, LossFate(cs[j]));
    hide Layout, Contents, Linked, Orderly, Kept, DamageFate, TakeAll, Events;
    OrderlyDamage(0, cs, j, fate, DamagedEvent(g, cs[j]), false);
    TakeRecords(cfg, Fresh(cfg), 0, recs, false, fate);
  }

  /** The assembler gets all physical records but those from the damaged one to the end of its block. */
  lemma DamagedContents(recs: seq<Bytes>, g: Bytes, j: nat, place: Place)
    requires j < |Layout(0, recs)|
    requires Damages(LogFile(recs), g, Layout(0, recs)[j], place)
    ensures Layout(0, recs)[j].End() <= |g| == |LogFile(recs)|
    ensures var cfg, d := Config(true, 0), Layout(0, recs)[j];
            Contents(g, cfg)
            == TakeAll(cfg, Fresh(cfg), Events(Layout(0, recs), DamageFate(d, DamagedEvent(g, d)))).Ended()
  {
    var f, cs, cfg := LogFile(recs), Layout(0, recs), Config(true, 0);
    LogStores(recs);
    hide Layout, LogFile, Stored, Linked, Damages, DamageFate, DamagedEvent, Stream, TakeAll, Events, ReadAll;
    DamagedStream(f, g, cs, j, place);
    ReadAllTakes(g, cfg, 0, Fresh(cfg));
  }

  lemma DamagedStream(f: Bytes, g: Bytes, cs: seq<Chunk>, j: nat, place: Place)
    requires j < |cs| && Damages(f, g, cs[j], place) && Linked(0, cs) && |f| == EndOf(0, cs)
    requires forall i :: 0 <= i < |cs| ==> Stored(f, cs[i])
    ensures cs[j].End() <= |g| == |f|
    ensures Stream(g, Config(true, 0), 0) == Events(cs, DamageFate(cs[j], DamagedEvent(g, cs[j])))
  {
    hide Stored, Damages, Next, DamageFate, Dropped, LossEnd, Stream, Events, Linked, HeaderAt, EndOf;
    DamagesLength(f, g, cs[j], place);
    HeaderAtHeader(cs, j);
    NextDamaged(f, g, cs[j].off, cs[j], place);
    StreamDamaged(f, g, Config(true, 0), 0, cs, j, place, DamageFate(cs[j], DamagedEvent(g, cs[j])));
  }

  lemma HeaderAtHeader(cs: seq<Chunk>, j: nat)
    requires Linked(0, cs) && j < |cs|
    ensures HeaderAt(cs[j].off) == cs[j].off
  {
    LinkedAt(0, cs, j);
    HeaderAtFits(EndOf(0, cs[..j]));
  }
}
