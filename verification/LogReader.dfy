/** The log reader of ibdb/src/log/log_reader.cpp: a block buffer, an end-of-file flag and an
    assembler. `LogParse` says what it computes. */
module LogReader {
  import opened Coding
  import Crc32c
  import opened LogFormat
  import opened LogParse

  /** Offsets are 64-bit; files and initial offsets stay below the largest off_t. */
  const OFFSET_MAX: nat := 0x7fff_ffff_ffff_0000

  /** A snapshot of the file descriptor and the buffer. */
  datatype Cursor = Cursor(f: Bytes, filePos: nat, end: nat, buf: Bytes, eof: bool) {
    /** The offset of the first byte that has not been consumed, as the reader counts. */
    function Pos(): int { end - |buf| }

    /** How far the reader's count has fallen behind the descriptor's. */
    function Drift(): int { filePos - end }

    /** Bytes that are buffered or not yet read. */
    function Remaining(): nat { |buf| + (if filePos <= |f| then |f| - filePos else 0) }

    predicate Done() { eof && buf == [] }

    /** The buffer holds the file's bytes up to `end`, which is the end of a block or, once a
        read has come up short, of the file. */
    ghost predicate InSync() {
      && filePos == end < OFFSET_MAX + BLOCK
      && |buf| <= end
      && (if eof then end >= |f| else end % BLOCK == 0)
      && (buf != [] ==> HoldsBlock())
    }

    ghost predicate HoldsBlock()
      requires |buf| <= end
    {
      && end <= |f|
      && buf == f[Pos()..end]
      && end == (if BlockEnd(Pos()) <= |f| then BlockEnd(Pos()) else |f|)
      && (eof <==> |f| < BlockEnd(Pos()))
    }

    function Drop(n: nat): Cursor
      requires n <= |buf|
    {
      this.(buf := buf[n..])
    }

    /** The cursor after the buffer has been replaced by the next block. */
    function Refill(): Cursor {
      var r := if filePos >= |f| then [] else f[filePos..if filePos + BLOCK <= |f| then filePos + BLOCK else |f|];
      Cursor(f, filePos + |r|, end + |r|, r, eof || |r| < BLOCK)
    }
  }

  /** What any number of steps keeps. */
  ghost predicate Advances(c0: Cursor, c: Cursor) {
    && c.f == c0.f
    && c.Remaining() <= c0.Remaining()
    && c.Drift() == c0.Drift()
    && (c0.Done() ==> c.Done() && c.end == c0.end)
    && (c0.InSync() ==> c.InSync())
  }

  /** The outcome of looking for a buffered header. */
  ghost predicate Filled(ok: bool, c0: Cursor, c: Cursor) {
    && Advances(c0, c)
    && (if ok then |c.buf| >= HEADER else c.Done())
    && (c0.Done() ==> !ok)
    && (c0.InSync() ==> c0.Pos() >= 0 && FilledAt(ok, c0.f, c0.Pos(), c.Pos()))
  }

  ghost predicate FilledAt(ok: bool, f: Bytes, p: nat, p': int) {
    if ok then p' == HeaderAt(p)
    else HeaderAt(p) + HEADER > |f| && p' == if p <= |f| then |f| else p
  }

  /** The outcome of looking for a physical record: `r0` was reported before and `r` after. */
  ghost predicate Found(cfg: Config, c0: Cursor, c: Cursor, code: nat, result: Bytes, r0: seq<Report>, r: seq<Report>) {
    && Advances(c0, c) && (c0.InSync() ==> c0.Pos() >= 0)
    && (code != EOF ==> c.Remaining() < c0.Remaining())
    && (code == BAD ==> result == [])
    && (code != EOF && code != BAD ==> U64(c.Pos() - HEADER - |result|) >= cfg.initial)
    && (c0.Done() ==> code == EOF && r == r0)
    && (c0.InSync() && code == EOF && !StopAt(c0.f, cfg, c0.Pos()) ==> c.Done())
    && (c0.InSync() ==> Matches(Next(c0.f, cfg, c0.Pos()), cfg, c.Pos(), code, result, r0, r))
  }

  ghost predicate Matches(e: Phys, cfg: Config, pos: int, code: nat, result: Bytes, r0: seq<Report>, r: seq<Report>) {
    && e.next == pos
    && match e
       case End(_) => code == EOF && r == r0
       case Bad(_, drop) => code == BAD && result == [] && r == r0 + ToldDrop(cfg, pos, drop)
       case Piece(c, data, off, _) =>
         code == c != EOF && c != BAD && result == data && r == r0 && off + HEADER + |data| == pos
  }

  lemma RefillAdvances(c: Cursor)
    requires !c.eof && |c.buf| < HEADER && |c.f| < OFFSET_MAX
    ensures Advances(c, c.Refill()) && |c.Refill().buf| <= BLOCK
    ensures c.InSync() ==> c.Pos() >= 0 && c.Refill().Pos() == HeaderAt(c.Pos()) == HeaderAt(HeaderAt(c.Pos()))
    ensures c.InSync() ==> c.Refill().end <= |c.f| || c.Refill().end == c.end
  {
  }

  lemma AdvancesTrans(a: Cursor, b: Cursor, c: Cursor)
    requires Advances(a, b) && Advances(b, c)
    ensures Advances(a, c)
  {
  }

  lemma DropAdvances(c: Cursor, n: nat)
    requires n <= |c.buf|
    ensures Advances(c, c.Drop(n))
  {
  }

  lemma InSyncFacts(c: Cursor)
    requires c.InSync()
    ensures 0 <= c.Pos() <= c.end < TWO64
    ensures |c.buf| >= HEADER ==> HeaderAt(c.Pos()) == c.Pos()
  {
  }

  /** The buffer holds a header already, or the file is exhausted. */
  lemma FilledHere(ok: bool, c: Cursor)
    requires if ok then |c.buf| >= HEADER else |c.buf| < HEADER && c.eof
    ensures Filled(ok, c, c.Drop(if ok then 0 else |c.buf|))
  {
    DropAdvances(c, |c.buf|);
    assert c.Drop(0) == c;
    if c.InSync() { InSyncFacts(c); }
  }

  lemma FilledFrom(ok: bool, c0: Cursor, c: Cursor)
    requires |c0.f| < OFFSET_MAX
    requires c == c0 || (!c0.eof && |c0.buf| < HEADER && c == c0.Refill())
    requires if ok then |c.buf| >= HEADER else |c.buf| < HEADER && c.eof
    ensures Filled(ok, c0, c.Drop(if ok then 0 else |c.buf|))
    ensures ok ==> c.Drop(0) == c
  {
    FilledHere(ok, c);
    if c != c0 {
      RefillAdvances(c0);
      AdvancesTrans(c0, c, c.Drop(if ok then 0 else |c.buf|));
    }
  }

  /** A buffer in step with the file holds what `Next` looks at. */
  lemma NextParses(cfg: Config, p: nat, c: Cursor)
    requires c.InSync() && |c.buf| >= HEADER && c.Pos() == HeaderAt(p)
    ensures Next(c.f, cfg, p) == Parse(cfg, c.Pos(), c.buf, c.eof)
    ensures StopAt(c.f, cfg, p) <==> IsStop(cfg, c.Pos(), c.buf)
  {
    hide Parse, IsStop;
  }

  lemma NothingFound(cfg: Config, c0: Cursor, c: Cursor, r: seq<Report>)
    requires Filled(false, c0, c)
    ensures Found(cfg, c0, c, EOF, [], r, r)
  {
  }

  lemma ParsedIsFound(cfg: Config, c0: Cursor, c: Cursor, n: nat, code: nat, result: Bytes, r0: seq<Report>,
                      r: seq<Report>)
    requires Filled(true, c0, c)
    requires 0 < n <= |c.buf|
    requires code == BAD ==> result == []
    requires code != EOF && code != BAD ==> U64(c.Drop(n).Pos() - HEADER - |result|) >= cfg.initial
    requires 0 <= c.Pos() && c.end < TWO64
         ==> Matches(Parse(cfg, c.Pos(), c.buf, c.eof), cfg, c.Drop(n).Pos(), code, result, r0, r)
    requires 0 <= c.Pos() && c.end < TWO64 && code == EOF && !IsStop(cfg, c.Pos(), c.buf) ==> c.Drop(n).Done()
    ensures Found(cfg, c0, c.Drop(n), code, result, r0, r)
  {
    hide U64, Matches, Next, Parse, Cursor.InSync, HeaderAt, StopAt, IsStop;
    DropAdvances(c, n);
    AdvancesTrans(c0, c, c.Drop(n));
    if c0.InSync() {
      InSyncFacts(c);
      NextParses(cfg, c0.Pos(), c);
    }
  }

  class Reader {
    const file: SequentialFile
    const checksum: bool
    const initialOffset: nat
    var buffer: Bytes
    var eof: bool
    var lastRecordOffset: nat
    var endOfBufferOffset: nat
    var resyncing: bool
    /** What the reporter was told. */
    var reports: seq<Report>
    /** Every record returned so far. */
    ghost var records: seq<Record>

    function Cfg(): Config { Config(checksum, initialOffset) }

    ghost function At(): Cursor
      reads this, file
    {
      Cursor(file.data, file.pos, endOfBufferOffset, buffer, eof)
    }

    ghost predicate Valid()
      reads this
    {
      && |file.data| < OFFSET_MAX && initialOffset < OFFSET_MAX
      && if records == [] then lastRecordOffset == 0
         else lastRecordOffset >= initialOffset
    }

    /** The assembler's state between calls. */
    ghost function Between(): State
      reads this
    {
      State(resyncing, false, [], 0, records, reports)
    }

    constructor (file: SequentialFile, checksum: bool, initialOffset: nat)
      requires file.pos == 0 && |file.data| < OFFSET_MAX && initialOffset < OFFSET_MAX
      ensures Valid() && this.file == file && Cfg() == Config(checksum, initialOffset)
      ensures Unread() && Between() == Fresh(Cfg())
    {
      this.file := file;
      this.checksum := checksum;
      this.initialOffset := initialOffset;
      buffer, eof, lastRecordOffset, endOfBufferOffset := [], false, 0, 0;
      resyncing := initialOffset > 0;
      reports, records := [], [];
    }

    method SkipToInitialBlock()
      modifies this`endOfBufferOffset, file
      ensures endOfBufferOffset == SkipTo(initialOffset)
      ensures file.pos == old(file.pos) + SkipTo(initialOffset)
    {
      var offsetInBlock := initialOffset % BLOCK;
      var blockStartLocation := initialOffset - offsetInBlock;
      if offsetInBlock > BLOCK - 6 {
        blockStartLocation := blockStartLocation + BLOCK;
      }
      endOfBufferOffset := blockStartLocation;
      if blockStartLocation > 0 {
        file.Skip(blockStartLocation);
      }
    }

    method ReportDrop(bytes: nat, reason: Reason)
      modifies this`reports
      ensures reports == if U64(U64(endOfBufferOffset - |buffer|) - bytes) >= initialOffset
                         then old(reports) + [Report(bytes, reason)] else old(reports)
      ensures var pos := endOfBufferOffset - |buffer|;
              0 <= pos - bytes && pos < TWO64 ==> reports == old(reports) + Told(Cfg(), pos, bytes, reason)
    {
      if U64(U64(endOfBufferOffset - |buffer|) - bytes) >= initialOffset {
        reports := reports + [Report(bytes, reason)];
      }
    }

    /** Replaces a trailer by the next block. */
    method ReadBlock()
      requires !eof
      modifies this`buffer, this`eof, this`endOfBufferOffset, file
      ensures At() == old(At()).Refill()
    {
      buffer := [];
      buffer := file.Read(BLOCK);
      endOfBufferOffset := endOfBufferOffset + |buffer|;
      if |buffer| < BLOCK {
        eof := true;
      }
    }

    /** Refills the buffer until it holds a header; false at the end of the file. */
    method FillBuffer() returns (ok: bool)
      requires Valid()
      modifies this`buffer, this`eof, this`endOfBufferOffset, file
      ensures Filled(ok, old(At()), At())
    {
      hide Filled, Cursor.InSync;
      ghost var c0 := At();
      while |buffer| < HEADER
        invariant At() == c0 || (!c0.eof && |c0.buf| < HEADER && At() == c0.Refill())
        decreases if |buffer| >= HEADER then 0 else if eof then 1 else 2
      {
        if !eof {
          // the last read was a full read, so what is left is a trailer to skip
          ReadBlock();
        } else {
          ok := false;
          FilledFrom(ok, c0, At());
          assert buffer[|buffer|..] == [];
          buffer := [];
          return;
        }
      }
      ok := true;
      FilledFrom(ok, c0, At());
    }

    /** Clears the buffer, and reports the bytes in it when there is a reason. */
    method Discard(reason: seq<Reason>)
      requires |reason| <= 1
      modifies this`buffer, this`reports
      ensures buffer == [] && old(buffer)[|old(buffer)|..] == []
      ensures endOfBufferOffset < TWO64 && |old(buffer)| <= endOfBufferOffset ==>
        reports == old(reports)
          + ToldDrop(Cfg(), endOfBufferOffset, if reason == [] then [] else [Report(|old(buffer)|, reason[0])])
    {
      hide U64, Told;
      var dropSize := |buffer|;
      buffer := [];
      if reason != [] {
        ReportDrop(dropSize, reason[0]);
      }
    }

    /** Takes a physical record off a buffer that holds its header. */
    method ReadBuffered() returns (code: nat, result: Bytes)
      requires |buffer| >= HEADER
      modifies this`buffer, this`reports
      ensures |buffer| < |old(buffer)| && buffer == old(buffer)[|old(buffer)| - |buffer|..]
      ensures code == BAD ==> result == []
      ensures code != EOF && code != BAD ==> U64(endOfBufferOffset - |buffer| - HEADER - |result|) >= initialOffset
      ensures old(0 <= endOfBufferOffset - |buffer| && endOfBufferOffset < TWO64) ==>
        Matches(Parse(Cfg(), endOfBufferOffset - |old(buffer)|, old(buffer), eof),
          Cfg(), endOfBufferOffset - |buffer|, code, result, old(reports), reports)
      ensures old(0 <= endOfBufferOffset - |buffer| && endOfBufferOffset < TWO64) && code == EOF ==>
        (eof && buffer == []) || IsStop(Cfg(), endOfBufferOffset - |old(buffer)|, old(buffer))
    {
      hide Crc32c.Crc, Crc32c.Unmask, DecodeFixed32, TypeCode, Length, U64, Told;
      var length := Length(buffer[4], buffer[5]);
      code := TypeCode(buffer[6]);
      if HEADER + length > |buffer| {
        if !eof {
          Discard([BadRecordLength]);
          return BAD, [];
        }
        Discard([]);
        return EOF, [];
      }
      if code == ZERO && length == 0 {
        Discard([]);
        return BAD, [];
      }
      if checksum {
        var expectedCrc := Crc32c.Unmask(DecodeFixed32(buffer));
        var addr: nat := *;
        var actualCrc := Crc32c.Extend(0, buffer[6..HEADER + length], addr);
        if actualCrc != expectedCrc {
          // the length itself may be wrong, so nothing after it in the block can be trusted
          Discard([ChecksumMismatch]);
          return BAD, [];
        }
      }
      result := buffer[HEADER..HEADER + length];
      if |buffer| <= endOfBufferOffset < TWO64 { U64Fits(endOfBufferOffset - |buffer|); }
      buffer := buffer[HEADER + length..];
      if U64(endOfBufferOffset - |buffer| - HEADER - length) < initialOffset {
        return BAD, [];
      }
      if code == BAD {
        // a record type the reader uses for itself; the payload is never looked at
        result := [];
      }
    }

    /** Finds the next physical record: its type, or EOF or BAD, and its payload. */
    method ReadPhysicalRecord() returns (code: nat, result: Bytes)
      requires Valid()
      modifies this`buffer, this`eof, this`endOfBufferOffset, this`reports, file
      ensures Found(Cfg(), old(At()), At(), code, result, old(reports), reports)
    {
      hide Filled, Found, Matches, Parse, U64, IsStop;
      ghost var c0, r0 := At(), reports;
      var ok := FillBuffer();
      if !ok {
        NothingFound(Cfg(), c0, At(), r0);
        return EOF, [];
      }
      ghost var c := At();
      assert |c.buf| >= HEADER by { FilledHolds(c0, c); }
      code, result := ReadBuffered();
      ghost var n := |c.buf| - |buffer|;
      assert At() == c.Drop(n);
      ParsedIsFound(Cfg(), c0, c, n, code, result, r0, reports);
    }

    /** The assembler's state inside a call. */
    ghost function Within(inFragment: bool, scratch: Bytes, prospective: nat): State
      reads this
    {
      State(resyncing, inFragment, scratch, if inFragment then prospective else 0, records, reports)
    }

    /** The part of ReadRecord that follows ReadPhysicalRecord, for anything but EOF. */
    method Assemble(code: nat, fragment: Bytes, offset: nat, inFragment0: bool, scratch0: Bytes, prospective0: nat)
      returns (done: bool, record: Bytes, inFragment: bool, scratch: Bytes, prospective: nat)
      requires Valid() && code != EOF
      requires inFragment0 || scratch0 == []
      requires code != BAD ==> offset >= initialOffset
      requires inFragment0 ==> prospective0 >= initialOffset
      requires code == BAD ==> fragment == []
      modifies this`resyncing, this`reports, this`lastRecordOffset, this`records
      ensures Valid()
      ensures inFragment || scratch == []
      ensures inFragment ==> prospective >= initialOffset
      ensures |scratch| <= |scratch0| + |fragment|
      ensures if done then records == old(records) + [Record(record, lastRecordOffset)] && !inFragment
              else records == old(records) && lastRecordOffset == old(lastRecordOffset)
      ensures var pos := endOfBufferOffset - |buffer|;
              |fragment| + |scratch0| <= pos < TWO64 ==>
                Within(inFragment, scratch, prospective)
                == if code == BAD then TakeBad(Cfg(), old(Within(inFragment0, scratch0, prospective0)), pos)
                   else TakePiece(Cfg(), old(Within(inFragment0, scratch0, prospective0)), code, fragment, offset, pos)
    {
      hide Told, U64;
      done, record, inFragment, scratch, prospective := false, [], inFragment0, scratch0, prospective0;
      if resyncing {
        if code == MIDDLE {
          return;
        } else if code == LAST {
          resyncing := false;
          return;
        } else {
          resyncing := false;
        }
      }
      if code == FULL {
        if inFragment && scratch != [] {
          ReportDrop(|scratch|, PartialRecord1);
        }
        done, record, inFragment, scratch := true, fragment, false, [];
        lastRecordOffset := offset;
        records := records + [Record(record, lastRecordOffset)];
      } else if code == FIRST {
        if inFragment && scratch != [] {
          ReportDrop(|scratch|, PartialRecord2);
        }
        inFragment, scratch, prospective := true, fragment, offset;
      } else if code == MIDDLE {
        if !inFragment {
          ReportDrop(|fragment|, MissingStart1);
        } else {
          scratch := scratch + fragment;
        }
      } else if code == LAST {
        if !inFragment {
          ReportDrop(|fragment|, MissingStart2);
        } else {
          done, record, inFragment, scratch := true, scratch + fragment, false, [];
          lastRecordOffset := prospective;
          records := records + [Record(record, lastRecordOffset)];
        }
      } else if code == BAD {
        if inFragment {
          ReportDrop(|scratch|, ErrorInMiddle);
          inFragment, scratch := false, [];
        }
      } else {
        ReportDrop(|fragment| + (if inFragment then |scratch| else 0), UnknownType(code));
        inFragment, scratch := false, [];
      }
    }

    /** Nothing has been read yet. */
    ghost predicate Unread()
      reads this, file
    {
      At() == Cursor(file.data, 0, 0, [], false) && records == []
    }

    /** The reader has not been used, or it has skipped to its initial offset and delivered. */
    ghost predicate Positioned()
      reads this, file
    {
      Unread() || (At().InSync() && lastRecordOffset >= initialOffset)
    }

    /** Where the next call starts to read. */
    ghost function StartPos(): int
      reads this, file
    {
      if lastRecordOffset < initialOffset then SkipTo(initialOffset) else At().Pos()
    }

    /** Returns the next record, or false at the end of the file.

        Until a record has been returned, every call skips to the initial block again, relative
        to the descriptor's offset. `endOfBufferOffset` then no longer tells how much of the
        file has been consumed, unless nothing had been. */
    method ReadRecord() returns (found: bool, record: Bytes)
      requires Valid()
      modifies this, file
      ensures Valid()
      ensures At().Drift() == if old(lastRecordOffset < initialOffset) then old(file.pos) else old(At().Drift())
      ensures records == if found then old(records) + [Record(record, lastRecordOffset)] else old(records)
      ensures old(At().Done()) ==> !found && At().Done() && reports == old(reports)
      ensures old(Positioned()) ==> At().InSync() && At().Pos() >= 0 && old(StartPos()) >= 0
      ensures old(Positioned()) ==>
        Call(found, At().Pos(), Between()) == LogParse.ReadRecord(file.data, Cfg(), old(StartPos()), old(Between()))
      ensures old(Positioned()) && !found ==>
        At().Done() || StopAt(file.data, Cfg(), EndPos(file.data, Cfg(), old(StartPos())))
    {
      hide Cursor.InSync, LogParse.ReadRecord, StopAt, EndPos;
      if lastRecordOffset < initialOffset {
        ghost var unread := Unread();
        SkipToInitialBlock();
        if unread { SkippedInSync(file.data, initialOffset); }
      } else if Unread() {
        SkippedInSync(file.data, 0);
      }
      found, record := Scan();
    }

    /** The rest of ReadRecord: physical records are taken up to one that completes a record. */
    method Scan() returns (found: bool, record: Bytes)
      requires Valid()
      modifies this, file
      ensures Valid()
      ensures records == if found then old(records) + [Record(record, lastRecordOffset)] else old(records)
      ensures Finished(Cfg(), old(At()), old(Between()), found, At(), Between())
    {
      ghost var c0, s0 := At(), Between();
      ScanStart(Cfg(), c0, s0);
      hide Scanning, Finished, Cursor.Remaining;
      var scratch: Bytes := [];
      var inFragment := false;
      var prospective: nat := 0;
      while true
        invariant Valid() && records == old(records)
        invariant Assembling(inFragment, scratch, prospective)
        invariant Scanning(Cfg(), c0, s0, At(), Within(inFragment, scratch, prospective))
        decreases At().Remaining()
      {
        var ended;
        ended, found, record, inFragment, scratch, prospective := Turn(inFragment, scratch, prospective, c0, s0);
        if ended || found {
          return;
        }
      }
    }

    /** What holds of the variables of ReadRecord's loop. */
    predicate Assembling(inFragment: bool, scratch: Bytes, prospective: nat) {
      (inFragment || scratch == []) && (inFragment ==> prospective >= initialOffset)
    }

    /** One turn of ReadRecord's loop. */
    method Turn(inFragment0: bool, scratch0: Bytes, prospective0: nat, ghost c0: Cursor, ghost s0: State)
      returns (ended: bool, done: bool, record: Bytes, inFragment: bool, scratch: Bytes, prospective: nat)
      requires Valid() && Assembling(inFragment0, scratch0, prospective0)
      requires Scanning(Cfg(), c0, s0, At(), Within(inFragment0, scratch0, prospective0))
      modifies this, file
      ensures Valid() && Assembling(inFragment, scratch, prospective)
      ensures records == if done then old(records) + [Record(record, lastRecordOffset)] else old(records)
      ensures if ended || done then !(ended && done) && Finished(Cfg(), c0, s0, done, At(), Between())
              else Scanning(Cfg(), c0, s0, At(), Within(inFragment, scratch, prospective))
                   && At().Remaining() < old(At().Remaining())
    {
      hide TakeBad, TakePiece, Found, Scanning, Finished, U64, Cursor.Remaining;
      ghost var c, s := At(), Within(inFragment0, scratch0, prospective0);
      var code, fragment := ReadPhysicalRecord();
      ghost var c', r := At(), reports;
      FoundFacts(Cfg(), c, c', code, fragment, s.reports, r);
      if code == EOF {
        ScanEnd(Cfg(), c0, s0, c, s, c', fragment, r);
        resyncing := false;
        return true, false, [], false, [], 0;
      }
      var offset := U64(endOfBufferOffset - |buffer| - HEADER - |fragment|);
      ended := false;
      done, record, inFragment, scratch, prospective :=
        Assemble(code, fragment, offset, inFragment0, scratch0, prospective0);
      ScanStep(Cfg(), c0, s0, c, s, c', code, fragment, offset, r, Within(inFragment, scratch, prospective));
    }
  }

  /** An unfinished call: what is left to do gives the answer the call must give. */
  ghost predicate Scanning(cfg: Config, c0: Cursor, s0: State, c: Cursor, s: State) {
    && Advances(c0, c)
    && (c0.Done() ==> s.reports == s0.reports)
    && (c0.InSync() ==> 0 <= c0.Pos() && 0 <= c.Pos() && |s.scratch| <= c.Pos())
    && (c0.InSync() ==> LogParse.ReadRecord(c.f, cfg, c.Pos(), s) == LogParse.ReadRecord(c0.f, cfg, c0.Pos(), s0))
    && (c0.InSync() ==> EndPos(c.f, cfg, c.Pos()) == EndPos(c0.f, cfg, c0.Pos()))
  }

  /** A finished call. */
  ghost predicate Finished(cfg: Config, c0: Cursor, s0: State, found: bool, c: Cursor, s: State) {
    && c.Drift() == c0.Drift()
    && (c0.Done() ==> !found && c.Done() && s.reports == s0.reports)
    && (c0.InSync() ==> c.InSync() && 0 <= c0.Pos() && 0 <= c.Pos())
    && (c0.InSync() ==> Call(found, c.Pos(), s) == LogParse.ReadRecord(c0.f, cfg, c0.Pos(), s0))
    && (c0.InSync() && !found ==> c.Done() || StopAt(c0.f, cfg, EndPos(c0.f, cfg, c0.Pos())))
  }

  lemma ScanStart(cfg: Config, c: Cursor, s: State)
    requires s.scratch == []
    ensures Scanning(cfg, c, s, c, s)
  {
  }

  lemma FoundFacts(cfg: Config, c: Cursor, c': Cursor, code: nat, fragment: Bytes, r0: seq<Report>, r: seq<Report>)
    requires Found(cfg, c, c', code, fragment, r0, r)
    ensures code != EOF ==> c'.Remaining() < c.Remaining()
    ensures code == BAD ==> fragment == []
    ensures code != EOF && code != BAD ==> U64(c'.Pos() - HEADER - |fragment|) >= cfg.initial
  {
  }

  /** What was found, for a buffer in step with the file. */
  lemma FoundNext(cfg: Config, c: Cursor, c': Cursor, code: nat, fragment: Bytes, r0: seq<Report>, r: seq<Report>)
    requires Found(cfg, c, c', code, fragment, r0, r) && c.InSync()
    ensures 0 <= c.Pos() < c'.Pos() + 1 <= TWO64
    ensures var e := Next(c.f, cfg, c.Pos());
            e.next == c'.Pos()
            && if code == EOF then e.End? && r == r0
               else if code == BAD then e.Bad? && r == r0 + ToldDrop(cfg, e.next, e.drop) && fragment == []
               else e.Piece? && e.code == code && e.data == fragment && r == r0
                    && e.off == U64(c'.Pos() - HEADER - |fragment|) && c.Pos() + |fragment| <= c'.Pos()
  {
    InSyncFacts(c');
    hide Next, U64, ToldDrop;
    if code != EOF && code != BAD { U64Fits(c'.Pos() - HEADER - |fragment|); }
  }

  lemma ScanEnd(cfg: Config, c0: Cursor, s0: State, c: Cursor, s: State, c': Cursor, fragment: Bytes, r: seq<Report>)
    requires Scanning(cfg, c0, s0, c, s)
    requires Found(cfg, c, c', EOF, fragment, s.reports, r)
    ensures Finished(cfg, c0, s0, false, c', s.(reports := r).Ended())
  {
    hide Next, Take, Cursor.InSync, Matches, StopAt;
    if c0.InSync() { FoundNext(cfg, c, c', EOF, fragment, s.reports, r); }
  }

  /** The assembler's step on a physical record is one step of `LogParse.ReadRecord`. */
  lemma ScanStep(cfg: Config, c0: Cursor, s0: State, c: Cursor, s: State, c': Cursor,
                 code: nat, fragment: Bytes, offset: nat, r: seq<Report>, s': State)
    requires Scanning(cfg, c0, s0, c, s)
    requires Found(cfg, c, c', code, fragment, s.reports, r) && code != EOF
    requires offset == U64(c'.Pos() - HEADER - |fragment|)
    requires |s'.scratch| <= |s.scratch| + |fragment|
    requires |fragment| + |s.scratch| <= c'.Pos() < TWO64 ==>
      s' == if code == BAD then TakeBad(cfg, s.(reports := r), c'.Pos())
            else TakePiece(cfg, s.(reports := r), code, fragment, offset, c'.Pos())
    ensures if |s'.records| > |s.records| then Finished(cfg, c0, s0, true, c', s')
            else Scanning(cfg, c0, s0, c', s')
    ensures c0.Done() ==> false
  {
    hide Next, U64, TakeBad, TakePiece, Cursor.InSync, Matches, ToldDrop, StopAt;
    if c0.InSync() {
      FoundNext(cfg, c, c', code, fragment, s.reports, r);
      assert s' == Take(cfg, s, Next(c.f, cfg, c.Pos()));
    }
  }

  lemma SkippedInSync(f: Bytes, initial: nat)
    requires initial < OFFSET_MAX
    ensures Cursor(f, SkipTo(initial), SkipTo(initial), [], false).InSync() && SkipTo(0) == 0
  {
  }

  lemma FilledHolds(c0: Cursor, c: Cursor)
    requires Filled(true, c0, c)
    ensures |c.buf| >= HEADER
  {
  }
}
