/** The log writer of ibdb/src/log/log_writer.h. */
module LogWriter {
  import opened Coding
  import Crc32c
  import opened LogFormat

  /** The payload that fits behind the next header. */
  function Room(p: nat): nat { Avail(HeaderAt(p)) }

  /** An empty fragment of a longer record ends its block, and the next one has room. */
  lemma RoomAfterEmpty(p: nat)
    ensures Room(p) == 0 ==> Room(HeaderAt(p) + HEADER) != 0
  {
  }

  /** The fragments of a record, or of the rest of one, begin with as much as fits. */
  lemma FirstFragment(start: nat, rec: Bytes, begin: bool)
    ensures var cs, n := Fragments(start, rec, begin), if |rec| < Room(start) then |rec| else Room(start);
            && cs[0] == Chunk(HeaderAt(start), Kind(begin, n == |rec|), rec[..n])
            && cs[1..] == if n == |rec| then [] else Fragments(cs[0].End(), rec[n..], false)
  {
    hide HeaderAt;
  }

  /** A file after one more physical record. */
  function After(f: Bytes, c: Chunk): Bytes
    requires c.off >= |f| && c.Fits()
  {
    f + Zeros(c.off - |f|) + ChunkBytes(c)
  }

  lemma AppendFirst(f: Bytes, cs: seq<Chunk>)
    requires Linked(|f|, cs) && cs != []
    ensures cs[0].off >= |f| && cs[0].Fits() && Linked(cs[0].End(), cs[1..])
    ensures |After(f, cs[0])| == cs[0].End() && Append(f, cs) == Append(After(f, cs[0]), cs[1..])
    ensures cs[1..] == [] ==> Append(f, cs) == After(f, cs[0])
  {
    HeaderAtFits(|f|);
    hide ChunkBytes, HeaderAt, Chunk.Fits;
  }

  /** One turn of the writer's loop: pad to the next block if needed, emit one physical record. */
  lemma AppendRecordStep(f: Bytes, rec: Bytes, begin: bool, n: nat) returns (c: Chunk)
    requires n == if |rec| < Room(|f|) then |rec| else Room(|f|)
    ensures c == Chunk(HeaderAt(|f|), Kind(begin, n == |rec|), rec[..n]) && c.off >= |f| && c.Fits()
    ensures n == 0 < |rec| ==> Room(|f|) == 0 && Room(c.End()) != 0
    ensures AppendRecord(f, rec, begin)
         == if n == |rec| then After(f, c) else AppendRecord(After(f, c), rec[n..], false)
  {
    hide ChunkBytes, HeaderAt, Room, Fragments, Chunk.Fits, Linked, Append, Avail, Kind;
    var cs := Fragments(|f|, rec, begin);
    c := cs[0];
    FirstFragment(|f|, rec, begin);
    FragmentsLinked(|f|, rec, begin);
    AppendFirst(f, cs);
    if n == 0 { RoomAfterEmpty(|f|); }
  }

  lemma KindIs(begin: bool, end: bool)
    ensures Kind(begin, end) == if begin && end then FULL else if begin then FIRST else if end then LAST else MIDDLE
  {
  }

  lemma ChunkFits(c: Chunk, blockOffset: nat)
    requires FULL <= c.kind <= LAST && blockOffset + HEADER + |c.data| <= BLOCK && blockOffset % BLOCK == c.off % BLOCK
    ensures c.Fits()
  {
  }

  lemma Joined(f: Bytes, header: Bytes, data: Bytes)
    ensures f + header + data == f + (header + data)
  {
  }

  lemma SameInBlock(a: nat, b: nat, n: nat)
    requires a % BLOCK == b % BLOCK
    ensures (a + n) % BLOCK == (b + n) % BLOCK
  {
  }

  class IbdbWriter {
    const dest: WritableFile
    var blockOffset: nat
    /** The CRC of each record type, computed once. */
    const typeCrc: array<bv32>

    ghost predicate Valid()
      reads this, dest, typeCrc
    {
      && blockOffset <= BLOCK
      && blockOffset % BLOCK == |dest.contents| % BLOCK
      && typeCrc.Length == EOF_TYPE + 1
      && forall t: nat :: t <= EOF_TYPE ==> typeCrc[t] == Crc32c.Crc(0, [ToByte(t)])
    }

    constructor (dest: WritableFile)
      requires dest.contents == []
      ensures Valid() && this.dest == dest && fresh(typeCrc)
    {
      this.dest := dest;
      blockOffset := 0;
      typeCrc := new bv32[EOF_TYPE + 1];
      new;
      InitTypeCrc();
    }

    constructor WithLength(dest: WritableFile, destLength: nat)
      requires |dest.contents| == destLength
      ensures Valid() && this.dest == dest && fresh(typeCrc)
    {
      this.dest := dest;
      blockOffset := destLength % BLOCK;
      typeCrc := new bv32[EOF_TYPE + 1];
      new;
      InitTypeCrc();
    }

    method InitTypeCrc()
      requires typeCrc.Length == EOF_TYPE + 1
      modifies typeCrc
      ensures forall t: nat :: t <= EOF_TYPE ==> typeCrc[t] == Crc32c.Crc(0, [ToByte(t)])
    {
      hide Crc32c.Crc, ToByte;
      for i := 0 to EOF_TYPE + 1
        invariant forall t: nat :: t < i ==> typeCrc[t] == Crc32c.Crc(0, [ToByte(t)])
      {
        var addr: nat := *;
        var crc := Crc32c.Extend(0, [ToByte(i)], addr);
        typeCrc[i] := crc;
      }
    }

    /** The new contents depend on the old contents and the record only, so it makes no
        difference whether the writer was kept or recreated since the last record. */
    method AddRecord(slice: Bytes)
      requires Valid()
      modifies this, dest
      ensures Valid()
      ensures dest.contents == AppendRecord(old(dest.contents), slice, true)
    {
      hide ChunkBytes, AppendRecord, Crc32c.Crc, ToByte, HeaderAt, Kind, Room;
      var ptr, left := 0, |slice|;
      var begin := true;
      while true
        invariant Valid()
        invariant ptr <= |slice| && left == |slice| - ptr
        invariant AppendRecord(dest.contents, slice[ptr..], begin) == AppendRecord(old(dest.contents), slice, true)
        decreases left, if Room(|dest.contents|) == 0 then 1 else 0
      {
        ghost var f, rec := dest.contents, slice[ptr..];
        ghost var n := if |rec| < Room(|f|) then |rec| else Room(|f|);
        ghost var c := AppendRecordStep(f, rec, begin, n);
        SkipTrailer();
        assert dest.contents + ChunkBytes(c) == After(f, c);
        hide After;
        var avail := BLOCK - blockOffset - HEADER;
        var fragmentLength := if left < avail then left else avail;
        var end := left == fragmentLength;
        KindIs(begin, end);
        var kind := if begin && end then FULL else if begin then FIRST else if end then LAST else MIDDLE;
        assert fragmentLength == n && rec[..n] == slice[ptr..ptr + n];
        assert c == Chunk(|dest.contents|, kind, slice[ptr..ptr + n]);
        EmitPhysicalRecord(kind, slice[ptr..ptr + fragmentLength]);
        assert rec[n..] == slice[ptr + n..];
        ptr := ptr + fragmentLength;
        left := left - fragmentLength;
        begin := false;
        if left == 0 {
          break;
        }
      }
    }

    /** Fills what is left of a block with zeros when no header fits into it. */
    method SkipTrailer()
      requires Valid()
      modifies this, dest
      ensures Valid() && HeaderAt(|dest.contents|) == |dest.contents|
      ensures BLOCK - blockOffset - HEADER == Room(|old(dest.contents)|)
      ensures dest.contents == old(dest.contents) + Zeros(HeaderAt(|old(dest.contents)|) - |old(dest.contents)|)
    {
      var leftover := BLOCK - blockOffset;
      if leftover < HEADER {
        if leftover > 0 {
          dest.Append(Zeros(leftover));
        }
        blockOffset := 0;
      }
    }

    method EmitPhysicalRecord(t: nat, data: Bytes)
      requires Valid()
      requires FULL <= t <= LAST
      requires blockOffset + HEADER + |data| <= BLOCK
      modifies this, dest
      ensures Valid()
      ensures Chunk(|old(dest.contents)|, t, data).Fits()
      ensures dest.contents == old(dest.contents) + ChunkBytes(Chunk(|old(dest.contents)|, t, data))
      ensures blockOffset == old(blockOffset) + HEADER + |data|
    {
      hide ChunkBytes, Header, ToByte, Crc32c.Crc, BlockEnd;
      ghost var c := Chunk(|dest.contents|, t, data);
      ChunkFits(c, blockOffset);
      ghost var f := dest.contents;
      var buf := FormatHeader(t, data, c);
      dest.Append(buf[..]);
      dest.Append(data);
      ChunkSplits(c);
      Joined(f, Header(c), data);
      SameInBlock(blockOffset, |f|, HEADER + |data|);
      blockOffset := blockOffset + HEADER + |data|;
    }

    method FormatHeader(t: nat, data: Bytes, ghost c: Chunk) returns (buf: array<bv8>)
      requires Valid()
      requires c.Fits() && c.kind == t && c.data == data
      ensures fresh(buf) && buf[..] == Header(c)
    {
      hide Crc32c.Crc, Crc32c.Mask, Fixed32, ToByte;
      var n := |data|;
      var addr: nat := *;
      var crc := Crc32c.Extend(typeCrc[t], data, addr);
      Crc32c.CrcConcat(0, [ToByte(t)], data);
      crc := Crc32c.Mask(crc);
      buf := new bv8[HEADER];
      buf[4] := ToByte(n % 256);
      buf[5] := ToByte(n / 256);
      buf[6] := ToByte(t);
      ghost var tail := buf[4..];
      assert tail == [ToByte(n % 256), ToByte(n / 256), ToByte(t)];
      EncodeFixed32(buf, crc);
      assert buf[..] == buf[..4] + tail;
    }
  }

  lemma ChunkSplits(c: Chunk)
    requires c.Fits()
    ensures ChunkBytes(c) == Header(c) + c.data
  {
  }
}
