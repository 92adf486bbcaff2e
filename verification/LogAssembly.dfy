/** How physical records are assembled into records when some of them arrive, some are met as
    bad records and some are never seen. */
module LogAssembly {
  import opened Coding
  import opened LogFormat
  import opened LogParse
  import opened LogChunks

  // ---------- fates ----------

  /** What became of a physical record on its way to the assembler: it arrives, the reader
      meets a bad record in its place, or the reader never sees it. */
  datatype Fate = Intact | Broken(next: nat, drop: seq<Report>) | Gone

  type Fates = Chunk -> Fate

  function Event(c: Chunk, fate: Fates): (es: seq<Phys>)
    ensures NoEnd(es)
  {
    match fate(c)
    case Intact => [Piece(c.kind, c.data, c.off, c.End())]
    case Broken(next, drop) => [Bad(next, drop)]
    case Gone => []
  }

  function Events(cs: seq<Chunk>, fate: Fates): (es: seq<Phys>)
    ensures NoEnd(es)
    decreases |cs|
  {
    if cs == [] then [] else Event(cs[0], fate) + Events(cs[1..], fate)
  }

  predicate AllIntact(cs: seq<Chunk>, fate: Fates) {
    forall c :: c in cs ==> fate(c).Intact?
  }

  predicate AllGone(cs: seq<Chunk>, fate: Fates) {
    forall c :: c in cs ==> fate(c).Gone?
  }

  /** The records that come back: those of which every physical record arrives. */
  function Kept(start: nat, recs: seq<Bytes>, fate: Fates): seq<Record>
    decreases |recs|
  {
    if recs == [] then []
    else
      var cs := Fragments(start, recs[0], true);
      (if AllIntact(cs, fate) then [Record(recs[0], cs[0].off)] else [])
      + Kept(EndOf(start, cs), recs[1..], fate)
  }

  /** A physical record never vanishes right after one that arrived, unless nothing follows.
      `intact` says whether the physical record before `cs` arrived. */
  ghost predicate Orderly(intact: bool, cs: seq<Chunk>, fate: Fates)
    decreases |cs|
  {
    cs == [] ||
    if intact && fate(cs[0]).Gone? then AllGone(cs, fate)
    else Orderly(fate(cs[0]).Intact?, cs[1..], fate)
  }

  lemma {:induction false} EventsConcat(x: seq<Chunk>, y: seq<Chunk>, fate: Fates)
    ensures Events(x + y, fate) == Events(x, fate) + Events(y, fate)
    decreases |x|
  {
    hide Event;
    if x == [] {
      assert x + y == y;
    } else {
      assert (x + y)[1..] == x[1..] + y;
      EventsConcat(x[1..], y, fate);
    }
  }

  lemma {:induction false} GoneEvents(cs: seq<Chunk>, fate: Fates)
    requires AllGone(cs, fate)
    ensures Events(cs, fate) == []
    decreases |cs|
  {
    if cs != [] {
      assert cs[0] in cs;
      GoneEvents(cs[1..], fate);
    }
  }

  lemma {:induction false} GoneKeepsNone(start: nat, recs: seq<Bytes>, fate: Fates)
    requires AllGone(Layout(start, recs), fate)
    ensures Kept(start, recs, fate) == []
    decreases |recs|
  {
    hide Fragments;
    if recs != [] {
      var cs := Fragments(start, recs[0], true);
      var rest := Layout(EndOf(start, cs), recs[1..]);
      assert forall c :: c in cs + rest <==> c in cs || c in rest;
      assert cs[0] in cs;
      GoneKeepsNone(EndOf(start, cs), recs[1..], fate);
    }
  }

  // ---------- assembling ----------

  lemma TakeOne(cfg: Config, s: State, e: Phys, es: seq<Phys>)
    requires !e.End? && NoEnd(es)
    ensures NoEnd([e] + es) && TakeAll(cfg, s, [e] + es) == TakeAll(cfg, Take(cfg, s, e), es)
  {
    assert ([e] + es)[1..] == es;
  }

  lemma OrderlyAfterGone(intact: bool, c: Chunk, rest: seq<Chunk>, fate: Fates)
    requires Orderly(intact, [c] + rest, fate)
    ensures intact && fate(c).Gone? ==> AllGone(rest, fate)
    ensures Orderly(fate(c).Intact?, rest, fate)
  {
    assert ([c] + rest)[1..] == rest;
    if intact && fate(c).Gone? {
      assert forall d :: d in rest ==> d in [c] + rest;
      AllGoneOrderly(false, rest, fate);
    }
  }

  lemma {:induction false} AllGoneOrderly(intact: bool, cs: seq<Chunk>, fate: Fates)
    requires AllGone(cs, fate)
    ensures Orderly(intact, cs, fate)
    decreases |cs|
  {
    if cs != [] {
      assert cs[0] in cs;
      AllGoneOrderly(false, cs[1..], fate);
    }
  }

  /** The assembler on one physical record of the given kind and fate. */
  lemma TakeEvent(cfg: Config, s: State, c: Chunk, fate: Fates)
    requires FULL <= c.kind <= LAST
    ensures var s' := TakeAll(cfg, s, Event(c, fate));
            match fate(c)
            case Gone => s' == s
            case Broken(_, _) => !s'.inFragment && s'.records == s.records
            case Intact => s' == TakePiece(cfg, s, c.kind, c.data, c.off, c.End())
  {
    if !fate(c).Gone? {
      var e := Event(c, fate)[0];
      assert Event(c, fate) == [e] + [];
      TakeOne(cfg, s, e, []);
    }
  }

  /** What the fragments of a record after its first do to the assembler: when it holds the
      start of the record and `whole` of the rest arrives, the record is delivered. Otherwise
      they are ignored, and the assembler is left waiting only if nothing follows. */
  ghost predicate TailDone(s: State, s': State, last: Chunk, whole: bool, data: Bytes, after: seq<Chunk>, fate: Fates) {
    && (s'.inFragment ==> AllGone(after, fate))
    && Orderly(fate(last).Intact?, after, fate)
    && if s.inFragment && whole then s' == s.Deliver(s.scratch + data, s.start) else s'.records == s.records
  }

  lemma Uncons(cs: seq<Chunk>, after: seq<Chunk>)
    requires cs != []
    ensures cs == [cs[0]] + cs[1..] && cs + after == [cs[0]] + (cs[1..] + after)
    ensures |cs| > 1 ==> cs[1..][|cs| - 2] == cs[|cs| - 1]
    ensures cs[1..] == [] ==> cs[1..] + after == after && cs == [cs[0]]
  {
  }

  lemma {:induction false} TakeTail(cfg: Config, s: State, start: nat, rest: Bytes, after: seq<Chunk>, intact: bool,
                                    fate: Fates)
    requires s.inFragment ==> intact && !s.resyncing
    requires Orderly(intact, Fragments(start, rest, false) + after, fate)
    ensures var cs := Fragments(start, rest, false);
            TailDone(s, TakeAll(cfg, s, Events(cs, fate)), cs[|cs| - 1], AllIntact(cs, fate), rest, after, fate)
    decreases |rest|, if Avail(HeaderAt(start)) == 0 then 1 else 0
  {
    var cs := Fragments(start, rest, false);
    var c, more := cs[0], cs[1..];
    FragmentsUnfold(start, rest, false);
    Uncons(cs, after);
    hide Fragments, TakeAll, Event, Events, HeaderAt, Avail, TailDone, Orderly, TakePiece, AllIntact;
    OrderlyAfterGone(intact, c, more + after, fate);
    if s.inFragment && fate(c).Gone? {
      TailGone(s, c, more, rest, after, fate);
      assert TakeAll(cfg, s, []) == s by { TakeNone(cfg, s); }
    } else {
      TakeFirst(cfg, s, c, more, fate);
      var s1 := TakeAll(cfg, s, Event(c, fate));
      TailStep(cfg, s, c, fate);
      if c.kind == LAST {
        TakeNone(cfg, s1);
        TailLast(s, s1, c, after, fate);
      } else {
        var tail := rest[|c.data|..];
        TakeTail(cfg, s1, c.End(), tail, after, fate(c).Intact?, fate);
        assert c.data + tail == rest;
        TailMiddle(s, s1, TakeAll(cfg, s1, Events(more, fate)), c, more, tail, after, fate);
      }
    }
  }

  lemma TakeNone(cfg: Config, s: State)
    ensures TakeAll(cfg, s, []) == s
  {
  }

  lemma TailLast(s: State, s1: State, c: Chunk, after: seq<Chunk>, fate: Fates)
    requires Orderly(fate(c).Intact?, after, fate)
    requires if s.inFragment && fate(c).Intact? then s1 == s.Deliver(s.scratch + c.data, s.start)
             else !s1.inFragment && s1.records == s.records
    ensures TailDone(s, s1, c, AllIntact([c], fate), c.data, after, fate)
  {
    assert c in [c];
  }

  lemma TailMiddle(s: State, s1: State, s': State, c: Chunk, more: seq<Chunk>, data: Bytes, after: seq<Chunk>,
                   fate: Fates)
    requires more != []
    requires if s.inFragment && fate(c).Intact? then s1 == s.(scratch := s.scratch + c.data)
             else !s1.inFragment && s1.records == s.records
    requires TailDone(s1, s', more[|more| - 1], AllIntact(more, fate), data, after, fate)
    ensures var cs := [c] + more; TailDone(s, s', cs[|cs| - 1], AllIntact(cs, fate), c.data + data, after, fate)
  {
    hide Orderly;
    InCons(c, more);
    assert (s.scratch + c.data) + data == s.scratch + (c.data + data);
  }

  lemma InCons(c: Chunk, more: seq<Chunk>)
    ensures forall d :: d in [c] + more <==> d == c || d in more
  {
  }

  /** When a fragment vanishes after one that arrived, nothing follows. */
  lemma TailGone(s: State, c: Chunk, more: seq<Chunk>, data: Bytes, after: seq<Chunk>, fate: Fates)
    requires fate(c).Gone? && AllGone(more + after, fate)
    ensures var cs := [c] + more;
            Events(cs, fate) == [] && TailDone(s, s, cs[|cs| - 1], AllIntact(cs, fate), data, after, fate)
  {
    assert forall d :: d in more || d in after ==> d in more + after;
    InCons(c, more);
    GoneEvents([c] + more, fate);
    AllGoneOrderly(false, after, fate);
    assert c in [c] + more;
  }

  lemma TakeFirst(cfg: Config, s: State, c: Chunk, more: seq<Chunk>, fate: Fates)
    ensures TakeAll(cfg, s, Events([c] + more, fate))
            == TakeAll(cfg, TakeAll(cfg, s, Event(c, fate)), Events(more, fate))
    ensures Events([], fate) == []
  {
    hide TakeAll, Event;
    assert ([c] + more)[1..] == more;
    TakeAllConcat(cfg, s, Event(c, fate), Events(more, fate));
  }

  /** One fragment that is not the first of its record. */
  lemma TailStep(cfg: Config, s: State, c: Chunk, fate: Fates)
    requires c.kind == MIDDLE || c.kind == LAST
    requires s.inFragment ==> !s.resyncing && !fate(c).Gone?
    ensures var s1 := TakeAll(cfg, s, Event(c, fate));
            if s.inFragment && fate(c).Intact? then
              s1 == if c.kind == LAST then s.Deliver(s.scratch + c.data, s.start) else s.(scratch := s.scratch + c.data)
            else !s1.inFragment && s1.records == s.records
  {
    hide TakeAll;
    TakeEvent(cfg, s, c, fate);
  }

  lemma FragmentsUnfold(start: nat, rec: Bytes, begin: bool)
    ensures var cs := Fragments(start, rec, begin);
            var off := HeaderAt(start);
            var n := if |rec| < Avail(off) then |rec| else Avail(off);
            && cs[0] == Chunk(off, Kind(begin, n == |rec|), rec[..n])
            && n == |cs[0].data|
            && (cs[0].kind == if n == |rec| then (if begin then FULL else LAST) else if begin then FIRST else MIDDLE)
            && (n == |rec| ==> cs[1..] == [] && rec[..n] == rec)
            && (n < |rec| ==> cs[1..] == Fragments(cs[0].End(), rec[n..], false))
            && (n == 0 < |rec| ==> Avail(off) == 0 && Avail(HeaderAt(cs[0].End())) != 0)
  {
  }

  /** The first physical record of a record. */
  lemma HeadStep(cfg: Config, s: State, c: Chunk, fate: Fates)
    requires !s.inFragment && (c.kind == FULL || c.kind == FIRST)
    ensures var s1 := TakeAll(cfg, s, Event(c, fate));
            if fate(c).Intact? then
              if c.kind == FULL then !s1.inFragment && s1.records == s.records + [Record(c.data, c.off)]
              else s1.inFragment && !s1.resyncing && s1.scratch == c.data && s1.start == c.off
                   && s1.records == s.records
            else !s1.inFragment && s1.records == s.records
  {
    hide TakeAll;
    TakeEvent(cfg, s, c, fate);
  }

  /** What a record's physical records do to the assembler. */
  ghost predicate RecordDone(s: State, s': State, cs: seq<Chunk>, rec: Bytes, after: seq<Chunk>, fate: Fates)
    requires cs != []
  {
    && (s'.inFragment ==> AllGone(after, fate))
    && Orderly(fate(cs[|cs| - 1]).Intact?, after, fate)
    && s'.records == s.records + (if AllIntact(cs, fate) then [Record(rec, cs[0].off)] else [])
  }

  lemma RecordFull(s: State, s1: State, c: Chunk, after: seq<Chunk>, fate: Fates)
    requires !s1.inFragment && Orderly(fate(c).Intact?, after, fate)
    requires s1.records == s.records + if fate(c).Intact? then [Record(c.data, c.off)] else []
    ensures RecordDone(s, s1, [c], c.data, after, fate)
  {
    hide Orderly;
    assert c in [c];
  }

  lemma RecordTail(s: State, s1: State, s': State, c: Chunk, more: seq<Chunk>, data: Bytes, after: seq<Chunk>,
                   fate: Fates)
    requires more != [] && TailDone(s1, s', more[|more| - 1], AllIntact(more, fate), data, after, fate)
    requires s1.records == s.records
    requires if fate(c).Intact? then s1.inFragment && s1.scratch == c.data && s1.start == c.off else !s1.inFragment
    ensures RecordDone(s, s', [c] + more, c.data + data, after, fate)
  {
    hide Orderly;
    InCons(c, more);
  }

  /** A whole record. */
  lemma TakeRecord(cfg: Config, s: State, start: nat, rec: Bytes, after: seq<Chunk>, intact: bool, fate: Fates)
    requires !s.inFragment
    requires Orderly(intact, Fragments(start, rec, true) + after, fate)
    ensures var cs := Fragments(start, rec, true);
            RecordDone(s, TakeAll(cfg, s, Events(cs, fate)), cs, rec, after, fate)
  {
    var cs := Fragments(start, rec, true);
    var c, more := cs[0], cs[1..];
    FragmentsUnfold(start, rec, true);
    Uncons(cs, after);
    hide Fragments, TakeAll, Event, Events, HeaderAt, Avail, Orderly, AllIntact, RecordDone, TailDone;
    OrderlyAfterGone(intact, c, more + after, fate);
    TakeFirst(cfg, s, c, more, fate);
    var s1 := TakeAll(cfg, s, Event(c, fate));
    HeadStep(cfg, s, c, fate);
    if c.kind == FULL {
      TakeNone(cfg, s1);
      RecordFull(s, s1, c, after, fate);
    } else {
      var rest := rec[|c.data|..];
      TakeTail(cfg, s1, c.End(), rest, after, fate(c).Intact?, fate);
      assert c.data + rest == rec;
      RecordTail(s, s1, TakeAll(cfg, s1, Events(more, fate)), c, more, rest, after, fate);
    }
  }

  lemma NoEvents(fate: Fates)
    ensures Events([], fate) == []
  {
  }

  /** Every record whose physical records all arrive is delivered, and nothing else. */
  lemma {:induction false} TakeRecords(cfg: Config, s: State, start: nat, recs: seq<Bytes>, intact: bool, fate: Fates)
    requires s.inFragment ==> AllGone(Layout(start, recs), fate)
    requires Orderly(intact, Layout(start, recs), fate)
    ensures TakeAll(cfg, s, Events(Layout(start, recs), fate)).records == s.records + Kept(start, recs, fate)
    decreases |recs|
  {
    TakeNone(cfg, s);
    NoEvents(fate);
    hide Fragments, Orderly, Event, TakeAll, Events;
    if s.inFragment {
      GoneEvents(Layout(start, recs), fate);
      GoneKeepsNone(start, recs, fate);
    } else if recs != [] {
      var cs := Fragments(start, recs[0], true);
      var rest := Layout(EndOf(start, cs), recs[1..]);
      EventsConcat(cs, rest, fate);
      TakeAllConcat(cfg, s, Events(cs, fate), Events(rest, fate));
      TakeRecord(cfg, s, start, recs[0], rest, intact, fate);
      var s1 := TakeAll(cfg, s, Events(cs, fate));
      TakeRecords(cfg, s1, EndOf(start, cs), recs[1..], fate(cs[|cs| - 1]).Intact?, fate);
    }
  }
}
