/** A log whose writer died between two physical records and that another writer continued. */
module LogResume {
  import opened Coding
  import opened LogFormat
  import opened LogParse
  import opened LogChunks
  import opened LogAssembly
  import opened LogSeek
  import opened LogTheorems

  // ---------- records that were left open ----------

  predicate Begins(c: Chunk) { c.kind == FULL || c.kind == FIRST }

  predicate Continues(c: Chunk) { c.kind == MIDDLE || c.kind == LAST }

  /** More physical records of the same record must follow. */
  predicate Expects(c: Chunk) { c.kind == FIRST || c.kind == MIDDLE }

  /** The payload that the list has of the record that it leaves open. */
  function Unfinished(cs: seq<Chunk>): Bytes
    decreases |cs|
  {
    if cs == [] then []
    else
      var n := |cs| - 1;
      if cs[n].kind == FIRST then cs[n].data
      else if cs[n].kind == MIDDLE then Unfinished(cs[..n]) + cs[n].data
      else []
  }

  /** A physical record continues a record just when the one before it expects that. */
  lemma {:induction false} Alternates(open: bool, cs: seq<Chunk>, i: nat)
    requires Proper(open, cs) && i < |cs|
    ensures FULL <= cs[i].kind <= LAST
    ensures Continues(cs[i]) <==> if i == 0 then open else Expects(cs[i - 1])
    decreases i
  {
    if i > 0 { Alternates(Expects(cs[0]), cs[1..], i - 1); }
  }

  lemma {:induction false} UnfinishedFits(p: nat, cs: seq<Chunk>)
    requires Linked(p, cs)
    ensures p + |Unfinished(cs)| <= EndOf(p, cs)
    decreases |cs|
  {
    if cs != [] {
      var n := |cs| - 1;
      assert cs == cs[..n] + [cs[n]];
      LinkedConcat(p, cs[..n], [cs[n]]);
      HeaderAtFits(EndOf(p, cs[..n]));
      UnfinishedFits(p, cs[..n]);
    }
  }

  // ---------- the assembler ----------

  /** What the assembler has after a list of physical records that all arrived: nothing to
      report, and the payload of the record that is open. */
  ghost predicate Holding(s: State, s': State, cs: seq<Chunk>) {
    && s'.reports == s.reports && !s'.resyncing && s'.scratch == Unfinished(cs)
    && (s'.inFragment <==> cs != [] && Expects(cs[|cs| - 1]))
  }

  lemma HoldsNext(cfg: Config, s: State, s1: State, cs: seq<Chunk>, i: nat, fate: Fates)
    requires i < |cs| && fate(cs[i]).Intact? && Holding(s, s1, cs[..i])
    requires FULL <= cs[i].kind <= LAST && (Continues(cs[i]) <==> i > 0 && Expects(cs[i - 1]))
    ensures Holding(s, TakeAll(cfg, s1, Event(cs[i], fate)), cs[..i + 1])
  {
    hide TakeAll;
    TakeEvent(cfg, s1, cs[i], fate);
    assert cs[..i + 1][..i] == cs[..i];
    if i == 0 { assert cs[..0] == []; }
  }

  lemma {:induction false} IntactPrefix(cfg: Config, s: State, cs: seq<Chunk>, j: nat, fate: Fates)
    requires Proper(false, cs) && j <= |cs|
    requires forall i :: 0 <= i < j ==> fate(cs[i]).Intact?
    requires !s.inFragment && !s.resyncing && s.scratch == []
    ensures Holding(s, TakeAll(cfg, s, Events(cs[..j], fate)), cs[..j])
    decreases j
  {
    if j == 0 {
      NoEvents(fate);
      TakeNone(cfg, s);
    } else {
      var i, c := j - 1, cs[j - 1];
      Alternates(false, cs, i);
      hide TakeAll, Events, Event, Proper, Holding;
      IntactPrefix(cfg, s, cs, i, fate);
      assert cs[..j] == cs[..i] + [c];
      OneMore(cfg, s, cs[..i], c, fate);
      HoldsNext(cfg, s, TakeAll(cfg, s, Events(cs[..i], fate)), cs, i, fate);
    }
  }

  lemma OneMore(cfg: Config, s: State, cs: seq<Chunk>, c: Chunk, fate: Fates)
    ensures TakeAll(cfg, s, Events(cs + [c], fate))
            == TakeAll(cfg, TakeAll(cfg, s, Events(cs, fate)), Event(c, fate))
  {
    var s1 := TakeAll(cfg, s, Events(cs, fate));
    hide TakeAll, Event;
    EventsConcat(cs, [c], fate);
    TakeAllConcat(cfg, s, Events(cs, fate), Events([c], fate));
    assert [c] + [] == [c];
    TakeFirst(cfg, s1, c, [], fate);
    TakeNone(cfg, TakeAll(cfg, s1, Event(c, fate)));
  }

  /** The same assembler with more reports before its own. */
  function Behind(r: seq<Report>, s: State): State { s.(reports := r + s.reports) }

  lemma TellBehind(cfg: Config, r: seq<Report>, s: State, next: nat, bytes: nat, reason: Reason)
    ensures Behind(r, s).Tell(cfg, next, bytes, reason) == Behind(r, s.Tell(cfg, next, bytes, reason))
  {
    hide Told;
    assert (r + s.reports) + Told(cfg, next, bytes, reason) == r + (s.reports + Told(cfg, next, bytes, reason));
  }

  lemma PieceBehind(cfg: Config, r: seq<Report>, s0: State, code: nat, data: Bytes, off: nat, next: nat)
    ensures TakePiece(cfg, Behind(r, s0), code, data, off, next) == Behind(r, TakePiece(cfg, s0, code, data, off, next))
  {
    hide State.Tell;
    var s := s0.(resyncing := false);
    TellBehind(cfg, r, s, next, |s.scratch|, PartialRecord1);
    TellBehind(cfg, r, s, next, |s.scratch|, PartialRecord2);
    TellBehind(cfg, r, s, next, |data|, MissingStart1);
    TellBehind(cfg, r, s, next, |data|, MissingStart2);
    TellBehind(cfg, r, s, next, |data| + |s.scratch|, UnknownType(code));
  }

  lemma BadBehind(cfg: Config, r: seq<Report>, s: State, next: nat, drop: seq<Report>)
    ensures Take(cfg, Behind(r, s), Bad(next, drop)) == Behind(r, Take(cfg, s, Bad(next, drop)))
  {
    hide State.Tell, ToldDrop;
    var told := ToldDrop(cfg, next, drop);
    assert (r + s.reports) + told == r + (s.reports + told);
    TellBehind(cfg, r, s.(reports := s.reports + told, resyncing := false), next, |s.scratch|, ErrorInMiddle);
  }

  /** What has been reported makes no difference to what follows. */
  lemma {:induction false} ReportsApart(cfg: Config, r: seq<Report>, s: State, es: seq<Phys>)
    requires NoEnd(es)
    ensures TakeAll(cfg, Behind(r, s), es) == Behind(r, TakeAll(cfg, s, es))
    decreases |es|
  {
    if es != [] {
      var e := es[0];
      if e.Bad? { BadBehind(cfg, r, s, e.next, e.drop); }
      else { PieceBehind(cfg, r, s, e.code, e.data, e.off, e.next); }
      hide TakePiece, TakeBad, Behind;
      ReportsApart(cfg, r, Take(cfg, s, e), es[1..]);
    }
  }

  /** What the reader says when the next record begins and the one before was left open: an empty
      first fragment is no corruption. */
  function Abandoned(x: seq<Chunk>, y: seq<Chunk>): seq<Report> {
    if y == [] || Unfinished(x) == [] then []
    else [Report(|Unfinished(x)|, if y[0].kind == FULL then PartialRecord1 else PartialRecord2)]
  }

  /** The first physical record of a record drops what the assembler had open. */
  lemma BeginAbandons(cfg: Config, s: State, c: Chunk)
    requires Begins(c) && !s.resyncing && (s.inFragment || s.scratch == [])
    requires cfg.initial == 0 && |s.scratch| <= c.End()
    ensures var told := if s.scratch == [] then []
                        else [Report(|s.scratch|, if c.kind == FULL then PartialRecord1 else PartialRecord2)];
            TakePiece(cfg, s, c.kind, c.data, c.off, c.End())
            == Behind(s.reports + told, TakePiece(cfg, s.Idle().(reports := []), c.kind, c.data, c.off, c.End()))
  {
  }

  /** New records after a list of physical records: they are delivered as if nothing had been open. */
  lemma TakeFresh(cfg: Config, s: State, x: seq<Chunk>, n: nat, more: seq<Bytes>, fate: Fates)
    requires cfg.initial == 0 && |Unfinished(x)| <= n && !s.resyncing && s.scratch == Unfinished(x)
    requires s.inFragment || s.scratch == []
    requires forall c :: c in Layout(n, more) ==> fate(c).Intact?
    ensures var y := Layout(n, more);
            var t := TakeAll(cfg, s.Idle().(reports := []), Events(y, fate));
            y != [] ==> TakeAll(cfg, s, Events(y, fate)) == Behind(s.reports + Abandoned(x, y), t)
  {
    var y := Layout(n, more);
    if y != [] {
      LayoutBegins(n, more);
      var c, rest, s0 := y[0], y[1..], s.Idle().(reports := []);
      assert y == [c] + rest && c in y;
      hide TakeAll, Event, Events, Layout;
      TakeFirst(cfg, s, c, rest, fate);
      TakeFirst(cfg, s0, c, rest, fate);
      TakeEvent(cfg, s, c, fate);
      TakeEvent(cfg, s0, c, fate);
      BeginAbandons(cfg, s, c);
      ReportsApart(cfg, s.reports + Abandoned(x, y), TakeAll(cfg, s0, Event(c, fate)), Events(rest, fate));
    }
  }

  lemma LayoutBegins(n: nat, more: seq<Bytes>)
    ensures var y := Layout(n, more); (y == [] <==> more == []) && (y != [] ==> Begins(y[0]) && n <= y[0].off)
  {
    if more != [] {
      FragmentsUnfold(n, more[0], true);
      HeaderAtFits(n);
      hide Fragments;
    }
  }

  // ---------- the file ----------

  /** The bytes of a log up to the end of its first `j` physical records. */
  function CutAfter(recs: seq<Bytes>, j: nat): Bytes
    requires j <= |Layout(0, recs)|
  {
    CutFits(recs, j);
    LogFile(recs)[..EndOf(0, Layout(0, recs)[..j])]
  }

  lemma CutFits(recs: seq<Bytes>, j: nat)
    requires j <= |Layout(0, recs)|
    ensures EndOf(0, Layout(0, recs)[..j]) <= |LogFile(recs)|
    ensures Linked(0, Layout(0, recs)[..j])
  {
    var cs := Layout(0, recs);
    LogStores(recs);
    hide Layout, LogFile, Stored;
    assert cs == cs[..j] + cs[j..];
    LinkedConcat(0, cs[..j], cs[j..]);
    if 0 < j < |cs| { LinkedOrdered(0, cs, j - 1, |cs| - 1); }
  }

  lemma EndsWithin(cs: seq<Chunk>, n: nat)
    requires Linked(0, cs) && EndOf(0, cs) <= n
    ensures forall i :: 0 <= i < |cs| ==> cs[i].End() <= n
  {
    forall i | 0 <= i < |cs| ensures cs[i].End() <= n {
      if i < |cs| - 1 { LinkedOrdered(0, cs, i, |cs| - 1); }
    }
  }

  lemma CutStores(recs: seq<Bytes>, j: nat)
    requires j <= |Layout(0, recs)|
    ensures var f, x := CutAfter(recs, j), Layout(0, recs)[..j];
            Linked(0, x) && |f| == EndOf(0, x) && forall i :: 0 <= i < |x| ==> Stored(f, x[i])
  {
    var x := Layout(0, recs)[..j];
    CutFits(recs, j);
    LogStores(recs);
    EndsWithin(x, EndOf(0, x));
    hide Layout, LogFile, Stored, Linked;
    forall i | 0 <= i < |x| ensures Stored(CutAfter(recs, j), x[i]) {
      StoredInPrefix(LogFile(recs), EndOf(0, x), x[i]);
    }
  }

  lemma StoredInLonger(f: Bytes, g: Bytes, c: Chunk)
    requires f <= g && Stored(f, c)
    ensures Stored(g, c)
  {
    assert g[..|f|] == f;
    assert g[c.off..c.End()] == g[..|f|][c.off..c.End()];
  }

  /** A continued file holds the physical records of both writers. */
  lemma ExtendedStores(f: Bytes, x: seq<Chunk>, more: seq<Bytes>)
    requires Linked(0, x) && |f| == EndOf(0, x) && forall i :: 0 <= i < |x| ==> Stored(f, x[i])
    ensures var g, cs := Extended(f, more), x + Layout(|f|, more);
            Linked(0, cs) && |g| == EndOf(0, cs) && forall i :: 0 <= i < |cs| ==> Stored(g, cs[i])
  {
    var y := Layout(|f|, more);
    LayoutLinked(|f|, more);
    AppendStores(f, y);
    LinkedConcat(0, x, y);
    hide Layout, Append, Stored, Linked;
    var g, cs := Extended(f, more), x + y;
    forall i | 0 <= i < |cs| ensures Stored(g, cs[i]) {
      if i < |x| { StoredInLonger(f, g, x[i]); }
    }
  }

  /** Everything that a file holds whole arrives. */
  lemma AllArrive(f: Bytes, cfg: Config, cs: seq<Chunk>, fate: Fates)
    requires Linked(0, cs) && |f| == EndOf(0, cs) && forall i :: 0 <= i < |cs| ==> Stored(f, cs[i])
    requires cfg.initial == 0 && forall i :: 0 <= i < |cs| ==> fate(cs[i]).Intact?
    ensures Contents(f, cfg) == TakeAll(cfg, Fresh(cfg), Events(cs, fate)).Ended()
  {
    EndsWithin(cs, |f|);
    EventsAgree(cs, fate, SeekFate(|f|, 0));
    hide Stored, Linked, Events, Stream, TakeAll, ReadAll, SeekFate;
    StreamIs(f, |f|, cfg, 0, cs);
    assert f[..|f|] == f;
    ReadAllTakes(f, cfg, 0, Fresh(cfg));
  }

  lemma {:induction false} EventsAgree(cs: seq<Chunk>, x: Fates, y: Fates)
    requires forall i :: 0 <= i < |cs| ==> x(cs[i]) == y(cs[i])
    ensures Events(cs, x) == Events(cs, y)
    decreases |cs|
  {
    if cs != [] { EventsAgree(cs[1..], x, y); }
  }

  // ---------- the theorem ----------

  /** New records on an assembler that holds nothing. */
  lemma TakeMore(cfg: Config, s: State, n: nat, more: seq<Bytes>, end: nat)
    requires cfg.initial == 0 && !s.inFragment && end == EndOf(n, Layout(n, more))
    ensures var t := TakeAll(cfg, s, Events(Layout(n, more), SeekFate(end, 0)));
            t.records == s.records + Placed(n, more) && t.reports == s.reports
  {
    var y := Layout(n, more);
    LayoutLinked(n, more);
    ProperLayout(n, more);
    assert more[..|more|] == more;
    hide Layout, TakeAll, Events, Placed, Kept, Orderly, Proper, Linked, SeekFate;
    SeekOrderly(n, y, end, 0, false);
    TakeRecords(cfg, s, n, more, false, SeekFate(end, 0));
    KeptPlaced(n, more, |more|, end, 0);
    FromZero(Placed(n, more));
    QuietTake(cfg, s, false, n, y, end);
  }

  /** The assembler on the physical records of both writers. */
  lemma TakeBoth(cfg: Config, x: seq<Chunk>, n: nat, more: seq<Bytes>, end: nat)
    requires cfg.initial == 0 && Linked(0, x) && Proper(false, x) && n == EndOf(0, x)
    requires end == EndOf(n, Layout(n, more))
    requires forall c :: c in x || c in Layout(n, more) ==> c.End() <= end
    ensures var y, fate := Layout(n, more), SeekFate(end, 0);
            var s1 := TakeAll(cfg, Fresh(cfg), Events(x, fate));
            var t := TakeAll(cfg, Fresh(cfg), Events(x + y, fate));
            t.records == s1.records + Placed(n, more) && t.reports == Abandoned(x, y)
  {
    var y, s, fate := Layout(n, more), Fresh(cfg), SeekFate(end, 0);
    assert x[..|x|] == x;
    UnfinishedFits(0, x);
    IntactPrefix(cfg, s, x, |x|, fate);
    LayoutBegins(n, more);
    hide Layout, TakeAll, Events, Placed, Proper, Linked, SeekFate;
    var s1 := TakeAll(cfg, s, Events(x, fate));
    EventsConcat(x, y, fate);
    TakeAllConcat(cfg, s, Events(x, fate), Events(y, fate));
    ClosedIsEmpty(x);
    if y == [] {
      NoEvents(fate);
      TakeNone(cfg, s1);
      assert Placed(n, more) == [] by { PlacedNone(n); }
    } else {
      TakeFresh(cfg, s1, x, n, more, fate);
      TakeMore(cfg, s1.Idle().(reports := []), n, more, end);
    }
  }

  lemma ClosedIsEmpty(x: seq<Chunk>)
    ensures x == [] || !Expects(x[|x| - 1]) ==> Unfinished(x) == []
  {
  }

  lemma PlacedNone(n: nat)
    ensures Placed(n, []) == []
  {
  }

  /** The first `m` records of a log lie wholly before the end of its first `j` physical records,
      and `more` is written behind that end: the old records come back, and then the new ones,
      each with the offset at which its writer put it. Nothing is reported but a fragment of the
      record that was being written, if some of its payload was stored and a new record begins. */
  lemma Resumed(recs: seq<Bytes>, j: nat, m: nat, more: seq<Bytes>, checksum: bool)
    requires j <= |Layout(0, recs)| && WhollyIn(recs, m, |CutAfter(recs, j)|)
    ensures var f := CutAfter(recs, j);
            var s := Contents(Extended(f, more), Config(checksum, 0));
            && s.records == Placed(0, recs[..m]) + Placed(|f|, more)
            && s.reports == Abandoned(Layout(0, recs)[..j], Layout(|f|, more))
  {
    hide LogFile, Layout, Contents, Placed, WhollyIn, Stored, Linked, Extended, Abandoned, Proper, Unfinished;
    CutIs(recs, j);
    hide CutAfter;
    CutStores(recs, j);
    ProperPrefix(recs, j);
    CrashSafety(recs, m, |CutAfter(recs, j)|, checksum);
    ResumedContents(CutAfter(recs, j), Layout(0, recs)[..j], more, Config(checksum, 0));
  }

  lemma CutIs(recs: seq<Bytes>, j: nat)
    requires j <= |Layout(0, recs)|
    ensures var f := CutAfter(recs, j); |f| <= |LogFile(recs)| && f == LogFile(recs)[..|f|]
  {
    hide LogFile, Layout;
    CutFits(recs, j);
  }

  lemma {:induction false} ProperTake(open: bool, cs: seq<Chunk>, j: nat)
    requires Proper(open, cs) && j <= |cs|
    ensures Proper(open, cs[..j])
    decreases j
  {
    if j > 0 {
      assert cs[..j][1..] == cs[1..][..j - 1];
      ProperTake(Expects(cs[0]), cs[1..], j - 1);
    }
  }

  lemma ProperPrefix(recs: seq<Bytes>, j: nat)
    requires j <= |Layout(0, recs)|
    ensures Proper(false, Layout(0, recs)[..j])
  {
    ProperLayout(0, recs);
    ProperTake(false, Layout(0, recs), j);
  }

  lemma ResumedContents(f: Bytes, x: seq<Chunk>, more: seq<Bytes>, cfg: Config)
    requires cfg.initial == 0 && Proper(false, x)
    requires Linked(0, x) && |f| == EndOf(0, x) && forall i :: 0 <= i < |x| ==> Stored(f, x[i])
    ensures var s := Contents(Extended(f, more), cfg);
            && s.records == Contents(f, cfg).records + Placed(|f|, more)
            && s.reports == Abandoned(x, Layout(|f|, more))
  {
    hide Layout, Extended, Contents, Placed, Stored, Linked, Events, TakeAll, Proper, EndOf, Abandoned;
    var y, g := Layout(|f|, more), Extended(f, more);
    ExtendedStores(f, x, more);
    LinkedConcat(0, x, y);
    AllIn(x, y, |g|);
    AllArrive(f, cfg, x, SeekFate(|g|, 0));
    AllArrive(g, cfg, x + y, SeekFate(|g|, 0));
    hide SeekFate;
    TakeBoth(cfg, x, |f|, more, |g|);
  }

  lemma AllIn(x: seq<Chunk>, y: seq<Chunk>, n: nat)
    requires Linked(0, x + y) && EndOf(0, x + y) <= n
    ensures forall i :: 0 <= i < |x + y| ==> SeekFate(n, 0)((x + y)[i]).Intact?
    ensures forall i :: 0 <= i < |x| ==> SeekFate(n, 0)(x[i]).Intact?
    ensures forall c :: c in x || c in y ==> c.End() <= n
  {
    EndsWithin(x + y, n);
    hide Linked, EndOf;
    assert forall c :: c in x || c in y ==> c in x + y;
    assert forall i :: 0 <= i < |x| ==> x[i] == (x + y)[i];
  }

  // ---------- what was left open ----------

  lemma {:induction false} UnfinishedAfter(x: seq<Chunk>, y: seq<Chunk>)
    requires x != [] && !Expects(x[|x| - 1])
    ensures Unfinished(x + y) == Unfinished(y)
    decreases |y|
  {
    if y == [] {
      assert x + y == x;
    } else {
      var n := |y| - 1;
      var last := y[n];
      assert (x + y)[..|x| + n] == x + y[..n] && (x + y)[|x| + n] == last && |x + y| - 1 == |x| + n;
      UnfinishedAfter(x, y[..n]);
    }
  }

  /** The fragments of a record that do not complete it hold a prefix of it. */
  lemma {:induction false} FragmentsPrefix(start: nat, rec: Bytes, begin: bool, i: nat, before: seq<Chunk>, part: Bytes)
    requires i < |Fragments(start, rec, begin)| && (if begin then part == [] else Unfinished(before) == part)
    requires begin ==> before == []
    ensures part <= Unfinished(before + Fragments(start, rec, begin)[..i]) <= part + rec
    decreases i
  {
    var cs := Fragments(start, rec, begin);
    FragmentsUnfold(start, rec, begin);
    if i == 0 {
      assert before + cs[..0] == before;
    } else {
      var c := cs[0];
      assert before + cs[..i] == (before + [c]) + cs[1..][..i - 1];
      OpenMore(before, c, part);
      hide Fragments, Unfinished, HeaderAt, Avail;
      FragmentsPrefix(c.End(), rec[|c.data|..], false, i - 1, before + [c], part + c.data);
      PrefixStep(part, c.data, rec[|c.data|..], Unfinished(before + cs[..i]));
      assert rec == c.data + rec[|c.data|..];
    }
  }

  lemma OpenMore(before: seq<Chunk>, c: Chunk, part: Bytes)
    requires (c.kind == FIRST && part == []) || (c.kind == MIDDLE && part == Unfinished(before))
    ensures Unfinished(before + [c]) == part + c.data
  {
    assert (before + [c])[..|before|] == before;
  }

  lemma PrefixStep(part: Bytes, data: Bytes, rest: Bytes, u: Bytes)
    requires part + data <= u <= (part + data) + rest
    ensures part <= u <= part + (data + rest)
  {
    assert (part + data) + rest == part + (data + rest);
    assert u[..|part|] == u[..|part + data|][..|part|];
  }

  lemma {:induction false} LastEnds(start: nat, rec: Bytes, begin: bool)
    ensures var cs := Fragments(start, rec, begin); !Expects(cs[|cs| - 1])
    decreases |rec|, if Avail(HeaderAt(start)) == 0 then 1 else 0
  {
    var cs := Fragments(start, rec, begin);
    FragmentsUnfold(start, rec, begin);
    hide Fragments;
    if |cs| > 1 {
      LastEnds(cs[0].End(), rec[|cs[0].data|..], false);
      assert cs[1..][|cs| - 2] == cs[|cs| - 1];
    }
  }

  /** `m` records end at or before `end`, and no more. */
  ghost predicate Whole(start: nat, recs: seq<Bytes>, m: nat, end: nat) {
    m <= |recs| && Reach(start, recs, m) <= end && (m < |recs| ==> end < Reach(start, recs, m + 1))
  }

  lemma InFirst(start: nat, recs: seq<Bytes>, j: nat, m: nat)
    requires recs != [] && j < |Fragments(start, recs[0], true)|
    requires Whole(start, recs, m, EndOf(start, Fragments(start, recs[0], true)[..j]))
    ensures m == 0
  {
    var cs := Fragments(start, recs[0], true);
    FragmentsLinked(start, recs[0], true);
    hide Fragments, Reach, Linked;
    LinkedAt(start, cs, j);
    HeaderAtFits(EndOf(start, cs[..j]));
    if j < |cs| - 1 { LinkedOrdered(start, cs, j, |cs| - 1); }
    if m > 0 { ReachUnfold(start, recs, m); }
  }

  lemma EndGrows(p: nat, cs: seq<Chunk>)
    requires Linked(p, cs)
    ensures EndOf(p, cs) >= p
  {
    if cs != [] { LinkedAt(p, cs, |cs| - 1); }
  }

  lemma FirstPart(start: nat, rec: Bytes, rest: seq<Chunk>, j: nat)
    requires j < |Fragments(start, rec, true)|
    ensures var cs := Fragments(start, rec, true); (cs + rest)[..j] == cs[..j] && Unfinished(cs[..j]) <= rec
  {
    var cs := Fragments(start, rec, true);
    FragmentsPrefix(start, rec, true, j, [], []);
    hide Fragments, Unfinished;
    assert [] + cs[..j] == cs[..j] && [] + rec == rec;
  }

  /** The end of a part of two lists, and what it leaves open, are those of its second half. */
  lemma SecondPart(start: nat, cs: seq<Chunk>, rest: seq<Chunk>, j: nat)
    requires cs != [] && !Expects(cs[|cs| - 1]) && |cs| <= j <= |cs + rest| && Linked(EndOf(start, cs), rest)
    ensures var e, r := EndOf(start, cs), rest[..j - |cs|];
            && EndOf(start, (cs + rest)[..j]) == EndOf(e, r) >= e
            && Unfinished((cs + rest)[..j]) == Unfinished(r)
  {
    var e, r := EndOf(start, cs), rest[..j - |cs|];
    assert (cs + rest)[..j] == cs + r && rest == r + rest[j - |cs|..];
    hide Linked, Unfinished;
    UnfinishedAfter(cs, r);
    LinkedConcat(start, cs, r);
    LinkedConcat(e, r, rest[j - |cs|..]);
    EndGrows(e, r);
  }

  lemma PastFirst(start: nat, recs: seq<Bytes>, m: nat, end: nat)
    requires recs != [] && Whole(start, recs, m, end) && end >= EndOf(start, Fragments(start, recs[0], true))
    ensures m > 0 && Whole(EndOf(start, Fragments(start, recs[0], true)), recs[1..], m - 1, end)
  {
    hide Fragments, Reach;
    if m < |recs| { ReachUnfold(start, recs, m + 1); }
    if m > 0 { ReachUnfold(start, recs, m); }
    ReachNone(EndOf(start, Fragments(start, recs[0], true)), recs[1..]);
  }

  lemma LayoutUnfold(start: nat, recs: seq<Bytes>)
    requires recs != []
    ensures var cs := Fragments(start, recs[0], true);
            var rest := Layout(EndOf(start, cs), recs[1..]);
            Layout(start, recs) == cs + rest && Linked(EndOf(start, cs), rest)
  {
    LayoutLinked(EndOf(start, Fragments(start, recs[0], true)), recs[1..]);
    hide Fragments, Linked;
  }

  ghost predicate PrefixOf(part: Bytes, recs: seq<Bytes>, m: nat) {
    m <= |recs| && part <= if m < |recs| then recs[m] else []
  }

  lemma NothingOpen(start: nat, j: nat, m: nat)
    requires j <= |Layout(start, [])| && Whole(start, [], m, EndOf(start, Layout(start, [])[..j]))
    ensures PrefixOf(Unfinished(Layout(start, [])[..j]), [], m)
  {
  }

  /** What was left open is a prefix of the first record that is not wholly there. */
  lemma {:induction false} OpenPrefix(start: nat, recs: seq<Bytes>, j: nat, m: nat)
    requires j <= |Layout(start, recs)| && Whole(start, recs, m, EndOf(start, Layout(start, recs)[..j]))
    ensures PrefixOf(Unfinished(Layout(start, recs)[..j]), recs, m)
    decreases |recs|
  {
    hide Fragments, Layout, Unfinished, Linked, EndOf, Whole, Reach;
    if recs == [] {
      NothingOpen(start, j, m);
    } else {
      LayoutUnfold(start, recs);
      var cs := Fragments(start, recs[0], true);
      var rest := Layout(EndOf(start, cs), recs[1..]);
      if j < |cs| {
        FirstPart(start, recs[0], rest, j);
        InFirst(start, recs, j, m);
      } else {
        LastEnds(start, recs[0], true);
        SecondPart(start, cs, rest, j);
        PastFirst(start, recs, m, EndOf(start, Layout(start, recs)[..j]));
        OpenPrefix(EndOf(start, cs), recs[1..], j - |cs|, m - 1);
      }
    }
  }

  /** The fragment that `Resumed` reports belongs to the first record that is not wholly there. */
  lemma AbandonedIsPrefix(recs: seq<Bytes>, j: nat, m: nat)
    requires j <= |Layout(0, recs)| && WhollyIn(recs, m, |CutAfter(recs, j)|)
    ensures Unfinished(Layout(0, recs)[..j]) <= if m < |recs| then recs[m] else []
  {
    hide LogFile, Layout, Unfinished;
    CutFits(recs, j);
    ReachIsLength(recs, m);
    if m < |recs| { ReachIsLength(recs, m + 1); }
    hide Reach;
    OpenPrefix(0, recs, j, m);
  }
}
