/** How the reader sees the physical records that a writer stored: intact, cut off by the end
    of the file, or damaged. */
module LogChunks {
  import opened Coding
  import Crc32c
  import opened LogFormat
  import opened LogParse

  lemma LengthRoundTrip(n: nat)
    requires n < 0x1_0000
    ensures Length(ToByte(n % 256), ToByte(n / 256)) == n
  {
    hide ToByte, Value;
    ByteRoundTrip(n % 256);
    ByteRoundTrip(n / 256);
  }

  lemma TypeRoundTrip(kind: nat)
    requires kind < 128
    ensures TypeCode(ToByte(kind)) == kind
  {
    hide ToByte, Value;
    ByteRoundTrip(kind);
  }

  /** The fields a reader finds in a buffer that starts with a stored physical record, given
      the checksum that is stored with it. */
  lemma FieldsOf(buf: Bytes, c: Chunk)
    requires c.Fits() && |buf| >= HEADER + |c.data| && buf[..HEADER + |c.data|] == ChunkBytes(c)
    ensures Length(buf[4], buf[5]) == |c.data| && TypeCode(buf[6]) == c.kind
    ensures buf[6..HEADER + |c.data|] == [ToByte(c.kind)] + c.data
    ensures buf[HEADER..HEADER + |c.data|] == c.data
    ensures Crc32c.Unmask(DecodeFixed32(buf)) == Crc32c.Crc(0, [ToByte(c.kind)] + c.data)
  {
    hide Crc32c.Crc, Crc32c.Mask, Crc32c.Unmask, Fixed32, DecodeFixed32, Length, TypeCode, ToByte;
    var n := |c.data|;
    var crc := Fixed32(StoredCrc(c.kind, c.data));
    var tail := [ToByte(n % 256), ToByte(n / 256), ToByte(c.kind)];
    var b := buf[..HEADER + n];
    assert b == crc + tail + c.data;
    assert buf[4] == b[4] == tail[0] && buf[5] == b[5] == tail[1] && buf[6] == b[6] == tail[2];
    LengthRoundTrip(n);
    TypeRoundTrip(c.kind);
    assert buf[6..HEADER + n] == b[6..] == [ToByte(c.kind)] + c.data;
    assert buf[HEADER..HEADER + n] == b[HEADER..] == c.data;
    assert buf == crc + buf[4..];
    RoundTrip32(StoredCrc(c.kind, c.data), buf[4..]);
    Crc32c.MaskUnmask(Crc32c.Crc(0, [ToByte(c.kind)] + c.data));
  }

  /** The part of the file that the reader buffers from offset `q` on. */
  function BlockFrom(f: Bytes, q: nat): Bytes
    requires q <= |f|
  {
    f[q..if BlockEnd(q) <= |f| then BlockEnd(q) else |f|]
  }

  lemma NextAtEnd(f: Bytes, cfg: Config, p: nat)
    requires HeaderAt(p) + HEADER > |f|
    ensures Next(f, cfg, p).End?
  {
  }

  lemma NextIsParse(f: Bytes, cfg: Config, p: nat)
    requires HeaderAt(p) + HEADER <= |f|
    ensures |BlockFrom(f, HeaderAt(p))| >= HEADER
    ensures Next(f, cfg, p) == Parse(cfg, HeaderAt(p), BlockFrom(f, HeaderAt(p)), |f| < BlockEnd(HeaderAt(p)))
  {
    hide Parse;
  }

  /** The bytes that are dropped with a bad record begin at its header, and they are reported just
      when the header does not lie before the initial offset. */
  lemma DropBegins(f: Bytes, cfg: Config, p: nat)
    requires Next(f, cfg, p).Bad? && Next(f, cfg, p).drop != []
    ensures var e := Next(f, cfg, p);
            && |e.drop| == 1 && e.next - e.drop[0].bytes == HeaderAt(p)
            && ToldDrop(cfg, e.next, e.drop) == if HeaderAt(p) >= cfg.initial then e.drop else []
  {
    hide Crc32c.Crc, Crc32c.Unmask, DecodeFixed32, Length, TypeCode;
    if HeaderAt(p) + HEADER > |f| {
      NextAtEnd(f, cfg, p);
    } else {
      NextIsParse(f, cfg, p);
      hide Next, BlockFrom;
    }
  }

  /** How a stored physical record reaches the assembler. */
  function Seen(k: nat, c: Chunk): Phys {
    if c.off < k then Bad(c.End(), []) else Piece(c.kind, c.data, c.off, c.End())
  }

  lemma NextStored(f: Bytes, cfg: Config, p: nat, c: Chunk)
    requires HeaderAt(p) == c.off && Stored(f, c)
    ensures Next(f, cfg, p) == Seen(cfg.initial, c)
  {
    hide Crc32c.Crc, Crc32c.Unmask, DecodeFixed32, Length, TypeCode, ToByte, ChunkBytes, HeaderAt;
    NextIsParse(f, cfg, p);
    var buf := BlockFrom(f, c.off);
    assert buf[..HEADER + |c.data|] == f[c.off..c.End()];
    FieldsOf(buf, c);
    hide Next, BlockFrom;
  }

  /** A record that runs past the end of the last, partial block ends the file quietly. */
  lemma NextCutOff(f: Bytes, n: nat, cfg: Config, p: nat, c: Chunk)
    requires HeaderAt(p) == c.off && Stored(f, c) && n < c.End() && n <= |f|
    ensures Next(f[..n], cfg, p).End?
  {
    hide Crc32c.Crc, Crc32c.Unmask, DecodeFixed32, Length, TypeCode, ToByte, ChunkBytes, HeaderAt;
    if c.off + HEADER <= n {
      NextIsParse(f[..n], cfg, p);
      var buf := BlockFrom(f[..n], c.off);
      var whole := f[c.off..c.End()];
      FieldsOf(whole, c);
      assert buf[4] == f[c.off + 4] == whole[4] && buf[5] == f[c.off + 5] == whole[5];
      hide Next;
    }
  }
}
