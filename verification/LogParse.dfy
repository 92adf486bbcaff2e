/** What a reader makes of a file, as a function of the file alone.

    `Next` finds the physical record that follows a position, without buffers and end-of-file
    flags. `Take` assembles physical records into logical ones. `ReadRecord` and `ReadAll`
    are one call of the reader, and calling it until it returns false. */
module LogParse {
  import opened Coding
  import Crc32c
  import opened LogFormat

  // the reader's extra codes: ibdb/src/log/log_reader.h, lines 75-84
  const EOF: nat := EOF_TYPE + 1
  const BAD: nat := EOF_TYPE + 2

  datatype Config = Config(checksum: bool, initial: nat)

  datatype Reason =
    | BadRecordLength
    | ChecksumMismatch
    | PartialRecord1
    | PartialRecord2
    | MissingStart1
    | MissingStart2
    | ErrorInMiddle
    | UnknownType(code: nat)

  datatype Report = Report(bytes: nat, reason: Reason)

  /** Outcome of looking for a physical record; `next` is where to look for the one after it. */
  datatype Phys =
    | End(next: nat)
    | Bad(next: nat, drop: seq<Report>)
    | Piece(code: nat, data: Bytes, off: nat, next: nat)

  /** A char is signed: type bytes from 128 on become large unsigned codes. */
  function TypeCode(b: bv8): nat {
    var v := Value(b);
    if v < 128 then v else TWO32 - 256 + v
  }

  function Length(a: bv8, b: bv8): nat { Value(a) + 256 * Value(b) }

  /** The physical record at the front of a buffer whose first byte is at offset `q`. */
  function Parse(cfg: Config, q: nat, buf: Bytes, eof: bool): (r: Phys)
    requires |buf| >= HEADER
    ensures q < r.next <= q + |buf|
    ensures r.Piece? ==> r.off == q && r.off + HEADER + |r.data| == r.next
  {
    var length := Length(buf[4], buf[5]);
    var code := TypeCode(buf[6]);
    var next := q + HEADER + length;
    if HEADER + length > |buf| then
      if eof then End(q + |buf|) else Bad(q + |buf|, [Report(|buf|, BadRecordLength)])
    else if code == ZERO && length == 0 then
      Bad(q + |buf|, [])
    else if cfg.checksum && Crc32c.Crc(0, buf[6..HEADER + length]) != Crc32c.Unmask(DecodeFixed32(buf)) then
      Bad(q + |buf|, [Report(|buf|, ChecksumMismatch)])
    else if q < cfg.initial || code == BAD then
      Bad(next, [])
    else if code == EOF then
      End(next)
    else
      Piece(code, buf[HEADER..HEADER + length], q, next)
  }

  /** A physical record at the front of a buffer that is wholly there, passes the check, starts
      at or after the initial offset and has the type that the reader uses for the end of the file. */
  predicate IsStop(cfg: Config, q: nat, buf: Bytes) {
    && |buf| >= HEADER && HEADER + Length(buf[4], buf[5]) <= |buf| && TypeCode(buf[6]) == EOF
    && (cfg.checksum ==>
          Crc32c.Crc(0, buf[6..HEADER + Length(buf[4], buf[5])]) == Crc32c.Unmask(DecodeFixed32(buf)))
    && q >= cfg.initial
  }

  /** The physical record at or after position `p`. */
  function Next(f: Bytes, cfg: Config, p: nat): (r: Phys)
    ensures r.next <= if p <= |f| then |f| else p
    ensures !r.End? ==> p < r.next <= |f|
    ensures r.Piece? ==> p <= r.off && r.off + HEADER + |r.data| == r.next
  {
    var q := HeaderAt(p);
    if q + HEADER > |f| then
      End(if p <= |f| then |f| else p)
    else
      // a length that overruns the last, partial block is a record whose writer died
      var bufferEnd := if BlockEnd(q) <= |f| then BlockEnd(q) else |f|;
      Parse(cfg, q, f[q..bufferEnd], |f| < BlockEnd(q))
  }

  /** What a reader at `p` has in its buffer once that holds a header. */
  function Buffered(f: Bytes, p: nat): Bytes {
    var q := HeaderAt(p);
    if q + HEADER > |f| then [] else f[q..if BlockEnd(q) <= |f| then BlockEnd(q) else |f|]
  }

  predicate StopAt(f: Bytes, cfg: Config, p: nat) { IsStop(cfg, HeaderAt(p), Buffered(f, p)) }

  /** The end of that physical record. */
  function AfterStop(f: Bytes, cfg: Config, p: nat): nat
    requires StopAt(f, cfg, p)
  {
    HeaderAt(p) + HEADER + Length(Buffered(f, p)[4], Buffered(f, p)[5])
  }

  /** A record returned to the caller, with the offset the reader reports for it. */
  datatype Record = Record(data: Bytes, off: nat)

  /** The assembler: the record being put together, and everything delivered so far. */
  datatype State = State(
    resyncing: bool, inFragment: bool, scratch: Bytes, start: nat,
    records: seq<Record>, reports: seq<Report>)
  {
    /** The state in which a call of ReadRecord begins. */
    function Idle(): State { this.(inFragment := false, scratch := [], start := 0) }

    /** The state in which the end of the file leaves the reader. */
    function Ended(): State { this.Idle().(resyncing := false) }

    function Tell(cfg: Config, next: nat, bytes: nat, reason: Reason): State {
      this.(reports := reports + Told(cfg, next, bytes, reason))
    }

    /** An empty first fragment at the tail of a block is no corruption. */
    function Unfinished(cfg: Config, next: nat, reason: Reason): State {
      if inFragment && scratch != [] then Tell(cfg, next, |scratch|, reason) else this
    }

    function Deliver(data: Bytes, off: nat): State {
      this.Idle().(records := records + [Record(data, off)])
    }
  }

  function Fresh(cfg: Config): State {
    State(cfg.initial > 0, false, [], 0, [], [])
  }

  /** What the reporter hears: nothing about bytes that lie before the initial offset. */
  function Told(cfg: Config, next: nat, bytes: nat, reason: Reason): seq<Report> {
    if next - bytes >= cfg.initial then [Report(bytes, reason)] else []
  }

  function ToldDrop(cfg: Config, next: nat, drop: seq<Report>): seq<Report> {
    if drop == [] then [] else Told(cfg, next, drop[0].bytes, drop[0].reason)
  }

  /** What ReadRecord does with one physical record. */
  function Take(cfg: Config, s: State, e: Phys): State
    requires !e.End?
  {
    if e.Bad? then TakeBad(cfg, s.(reports := s.reports + ToldDrop(cfg, e.next, e.drop)), e.next)
    else TakePiece(cfg, s, e.code, e.data, e.off, e.next)
  }

  function TakeBad(cfg: Config, s0: State, next: nat): State {
    var s := s0.(resyncing := false);
    if s.inFragment then s.Tell(cfg, next, |s.scratch|, ErrorInMiddle).Idle() else s
  }

  function TakePiece(cfg: Config, s0: State, code: nat, data: Bytes, off: nat, next: nat): State {
    if s0.resyncing && code == MIDDLE then
      s0
    else if s0.resyncing && code == LAST then
      s0.(resyncing := false)
    else
      var s := s0.(resyncing := false);
      if code == FULL then
        s.Unfinished(cfg, next, PartialRecord1).Deliver(data, off)
      else if code == FIRST then
        s.Unfinished(cfg, next, PartialRecord2).(inFragment := true, scratch := data, start := off)
      else if code == MIDDLE then
        if !s.inFragment then s.Tell(cfg, next, |data|, MissingStart1)
        else s.(scratch := s.scratch + data)
      else if code == LAST then
        if !s.inFragment then s.Tell(cfg, next, |data|, MissingStart2)
        else s.Deliver(s.scratch + data, s.start)
      else
        s.Tell(cfg, next, |data| + |s.scratch|, UnknownType(code)).Idle()
  }

  datatype Call = Call(found: bool, next: nat, state: State)

  /** One call of ReadRecord from position `p`. */
  function ReadRecord(f: Bytes, cfg: Config, p: nat, s: State): (r: Call)
    ensures r.found ==> p < r.next <= |f|
    decreases if p <= |f| then |f| - p else 0
  {
    var e := Next(f, cfg, p);
    if e.End? then Call(false, e.next, s.Ended())
    else
      var s' := Take(cfg, s, e);
      if |s'.records| > |s.records| then Call(true, e.next, s')
      else ReadRecord(f, cfg, e.next, s')
  }

  /** Calling ReadRecord until it returns false. */
  function ReadAll(f: Bytes, cfg: Config, p: nat, s: State): State
    decreases if p <= |f| then |f| - p else 0
  {
    var r := ReadRecord(f, cfg, p, s);
    if r.found then ReadAll(f, cfg, r.next, r.state) else r.state
  }

  /** Where a reader that was opened at `initial` starts to read: SkipToInitialBlock. */
  function SkipTo(initial: nat): nat {
    var inBlock := initial % BLOCK;
    initial - inBlock + (if inBlock > BLOCK - 6 then BLOCK else 0)
  }

  /** Everything a new reader delivers. */
  function Contents(f: Bytes, cfg: Config): State {
    ReadAll(f, cfg, SkipTo(cfg.initial), Fresh(cfg))
  }

  // ---------- the stream of physical records ----------

  /** The physical records from `p` on, up to the end of the file. */
  function Stream(f: Bytes, cfg: Config, p: nat): (es: seq<Phys>)
    ensures forall i :: 0 <= i < |es| ==> !es[i].End?
    decreases if p <= |f| then |f| - p else 0
  {
    var e := Next(f, cfg, p);
    if e.End? then [] else [e] + Stream(f, cfg, e.next)
  }

  ghost predicate NoEnd(es: seq<Phys>) {
    forall i :: 0 <= i < |es| ==> !es[i].End?
  }

  function TakeAll(cfg: Config, s: State, es: seq<Phys>): State
    requires NoEnd(es)
    decreases |es|
  {
    if es == [] then s else TakeAll(cfg, Take(cfg, s, es[0]), es[1..])
  }

  lemma {:induction false} TakeAllConcat(cfg: Config, s: State, x: seq<Phys>, y: seq<Phys>)
    requires NoEnd(x) && NoEnd(y)
    ensures NoEnd(x + y) && TakeAll(cfg, s, x + y) == TakeAll(cfg, TakeAll(cfg, s, x), y)
    decreases |x|
  {
    hide Take;
    if x == [] {
      assert x + y == y;
    } else {
      assert (x + y)[1..] == x[1..] + y;
      TakeAllConcat(cfg, Take(cfg, s, x[0]), x[1..], y);
    }
  }

  /** One call takes physical records up to the one that completes a record. */
  lemma {:induction false} ReadRecordTakes(f: Bytes, cfg: Config, p: nat, s: State)
    ensures var r := ReadRecord(f, cfg, p, s);
            if r.found then TakeAll(cfg, s, Stream(f, cfg, p)) == TakeAll(cfg, r.state, Stream(f, cfg, r.next))
            else TakeAll(cfg, s, Stream(f, cfg, p)).Ended() == r.state
    decreases if p <= |f| then |f| - p else 0
  {
    hide Take, Next;
    var e := Next(f, cfg, p);
    if !e.End? {
      assert Stream(f, cfg, p)[1..] == Stream(f, cfg, e.next);
      ReadRecordTakes(f, cfg, e.next, Take(cfg, s, e));
    }
  }

  /** Reading record by record delivers what the whole stream of physical records assembles to. */
  lemma {:induction false} ReadAllTakes(f: Bytes, cfg: Config, p: nat, s: State)
    ensures ReadAll(f, cfg, p, s) == TakeAll(cfg, s, Stream(f, cfg, p)).Ended()
    decreases if p <= |f| then |f| - p else 0
  {
    hide Take, Next;
    var r := ReadRecord(f, cfg, p, s);
    ReadRecordTakes(f, cfg, p, s);
    if r.found {
      ReadAllTakes(f, cfg, r.next, r.state);
    }
  }

  // ---------- where reading ends ----------

  /** Where the reader stands when it finds no further physical record. */
  function EndPos(f: Bytes, cfg: Config, p: nat): nat
    decreases if p <= |f| then |f| - p else 0
  {
    var e := Next(f, cfg, p);
    if e.End? then p else EndPos(f, cfg, e.next)
  }

  lemma ParseEnds(cfg: Config, q: nat, buf: Bytes, eof: bool)
    requires |buf| >= HEADER
    ensures IsStop(cfg, q, buf) ==> Parse(cfg, q, buf, eof) == End(q + HEADER + Length(buf[4], buf[5]))
    ensures Parse(cfg, q, buf, eof).End? && !IsStop(cfg, q, buf) ==> Parse(cfg, q, buf, eof) == End(q + |buf|) && eof
  {
    hide Crc32c.Crc, Crc32c.Unmask, DecodeFixed32, Length, TypeCode;
  }

  lemma NextEnds(f: Bytes, cfg: Config, p: nat)
    requires p <= |f|
    ensures StopAt(f, cfg, p) ==> Next(f, cfg, p) == End(AfterStop(f, cfg, p))
    ensures Next(f, cfg, p).End? && Next(f, cfg, p).next < |f| ==> StopAt(f, cfg, p)
  {
    HeaderAtFits(p);
    hide Parse, IsStop, Crc32c.Crc;
    if HeaderAt(p) + HEADER <= |f| {
      ParseEnds(cfg, HeaderAt(p), Buffered(f, p), |f| < BlockEnd(HeaderAt(p)));
      StopIsLong(cfg, HeaderAt(p), Buffered(f, p));
    } else {
      StopIsLong(cfg, HeaderAt(p), []);
    }
  }

  lemma StopIsLong(cfg: Config, q: nat, buf: Bytes)
    ensures IsStop(cfg, q, buf) ==> |buf| >= HEADER
  {
  }

  /** A call that returns false leaves bytes unread just when the reader has come to a physical
      record of its own end-of-file type and that is not the last thing in the file. */
  lemma {:induction false} EndsEarly(f: Bytes, cfg: Config, p: nat, s: State)
    requires p <= |f| && !ReadRecord(f, cfg, p, s).found
    ensures var r, q := ReadRecord(f, cfg, p, s), EndPos(f, cfg, p);
            && p <= q <= |f| && r.next == Next(f, cfg, q).next
            && (r.next < |f| <==> StopAt(f, cfg, q) && AfterStop(f, cfg, q) < |f|)
    decreases |f| - p
  {
    hide Next, Take, StopAt, AfterStop;
    var e := Next(f, cfg, p);
    if e.End? {
      NextEnds(f, cfg, p);
    } else {
      EndsEarly(f, cfg, e.next, Take(cfg, s, e));
    }
  }
}
