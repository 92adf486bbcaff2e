/** What the reader says about damage, and when it says nothing. */
module LogSilence {
  import opened Coding
  import opened LogFormat
  import opened LogParse
  import opened LogChunks
  import opened LogAssembly
  import opened LogSeek
  import opened LogDamage
  import opened LogResume

  // ---------- empty physical records ----------

  /** Only a whole record or the start of one is stored without payload. */
  ghost predicate EmptyBegins(cs: seq<Chunk>) {
    forall i :: 0 <= i < |cs| && cs[i].data == [] ==> Begins(cs[i])
  }

  lemma EmptyConcat(x: seq<Chunk>, y: seq<Chunk>)
    requires EmptyBegins(x) && EmptyBegins(y)
    ensures EmptyBegins(x + y)
  {
  }

  lemma {:induction false} EmptyFragments(start: nat, rec: Bytes, begin: bool)
    requires begin || (rec != [] && Avail(HeaderAt(start)) != 0)
    ensures EmptyBegins(Fragments(start, rec, begin))
    decreases |rec|, if Avail(HeaderAt(start)) == 0 then 1 else 0
  {
    var cs := Fragments(start, rec, begin);
    FragmentsUnfold(start, rec, begin);
    HeaderAtFits(start);
    var n := |cs[0].data|;
    hide Fragments;
    assert cs == [cs[0]] + cs[1..];
    if n < |rec| {
      NextBlockAvail(HeaderAt(start), cs[0].End());
      hide HeaderAt, Avail;
      EmptyFragments(cs[0].End(), rec[n..], false);
    }
    EmptyConcat([cs[0]], cs[1..]);
  }

  lemma NextBlockAvail(off: nat, end: nat)
    requires HeaderAt(off) == off && end == off + HEADER + Avail(off)
    ensures HeaderAt(end) == end && Avail(end) == BLOCK - HEADER
  {
  }

  lemma {:induction false} EmptyLayout(start: nat, recs: seq<Bytes>)
    ensures EmptyBegins(Layout(start, recs))
    decreases |recs|
  {
    hide Fragments, EmptyBegins;
    if recs == [] {
      assert EmptyBegins([]) by { EmptyNone(); }
    } else {
      var cs := Fragments(start, recs[0], true);
      EmptyFragments(start, recs[0], true);
      EmptyLayout(EndOf(start, cs), recs[1..]);
      EmptyConcat(cs, Layout(EndOf(start, cs), recs[1..]));
    }
  }

  lemma EmptyNone()
    ensures EmptyBegins([])
  {
  }

  // ---------- the assembler ----------

  /** What becomes of the physical records: `cs[j]` is damaged, the rest of its block is not seen,
      and `t` is the first physical record behind that. */
  ghost predicate Fate(cs: seq<Chunk>, j: nat, t: nat, e: Phys, fate: Fates) {
    && j < t <= |cs| && e.Bad? && fate(cs[j]) == Broken(e.next, e.drop)
    && (forall i :: 0 <= i < j || t <= i < |cs| ==> fate(cs[i]).Intact?)
    && (forall i :: j < i < t ==> fate(cs[i]).Gone?)
  }

  /** The damaged physical record itself ends a record that was open. */
  lemma AtDamage(cfg: Config, s: State, c: Chunk, e: Phys, fate: Fates)
    requires e.Bad? && fate(c) == Broken(e.next, e.drop) && cfg.initial == 0
    requires |e.drop| <= 1 && (e.drop != [] ==> e.drop[0].bytes <= e.next) && |s.scratch| <= e.next
    ensures var s' := TakeAll(cfg, s, Event(c, fate));
            && s'.reports == s.reports + e.drop + Interrupted(s) && !s'.inFragment && !s'.resyncing
  {
    assert Event(c, fate) == [e] + [];
    TakeOne(cfg, s, e, []);
    if e.drop != [] { assert e.drop == [e.drop[0]]; }
  }

  /** What is said about an open record when a bad one is met. */
  function Interrupted(s: State): seq<Report> {
    if s.inFragment then [Report(|s.scratch|, ErrorInMiddle)] else []
  }

  /** What is said about physical records that continue a record whose start is missing. */
  function Orphans(cs: seq<Chunk>): seq<Report>
    decreases |cs|
  {
    if cs == [] || !Continues(cs[0]) then []
    else
      [Report(|cs[0].data|, if cs[0].kind == MIDDLE then MissingStart1 else MissingStart2)] + Orphans(cs[1..])
  }

  lemma {:induction false} OrphansTold(cfg: Config, s: State, p: nat, cs: seq<Chunk>, n: nat)
    requires cfg.initial == 0 && Linked(p, cs) && ProperFromAnywhere(cs)
    requires forall i :: 0 <= i < |cs| ==> cs[i].End() <= n
    requires !s.inFragment && !s.resyncing
    ensures TakeAll(cfg, s, Events(cs, SeekFate(n, 0))).reports == s.reports + Orphans(cs)
    decreases |cs|
  {
    if cs == [] || !Continues(cs[0]) {
      QuietTake(cfg, s, false, p, cs, n);
    } else {
      var c, fate := cs[0], SeekFate(n, 0);
      assert cs == [c] + cs[1..];
      assert forall i :: 0 <= i < |cs[1..]| ==> cs[1..][i] == cs[i + 1];
      TakeFirst(cfg, s, c, cs[1..], fate);
      TakeEvent(cfg, s, c, fate);
      var s1 := TakeAll(cfg, s, Event(c, fate));
      if |cs| > 1 { Alternates(true, cs, 1); }
      hide TakeAll, Events, Event;
      OrphansTold(cfg, s1, c.End(), cs[1..], n);
    }
  }

  /** What the reader meets after the damaged block: `t` is the first physical record there. */
  lemma AfterDamage(cfg: Config, s: State, cs: seq<Chunk>, j: nat, t: nat, e: Phys, n: nat, fate: Fates)
    requires cfg.initial == 0 && Linked(0, cs) && Proper(false, cs) && EndOf(0, cs) <= n
    requires Fate(cs, j, t, e, fate) && !s.inFragment && !s.resyncing
    ensures TakeAll(cfg, s, Events(cs[j + 1..], fate)).reports == s.reports + Orphans(cs[t..])
  {
    GoneBetween(cs, j, t, fate);
    RestArrives(cs, t, n, fate);
    ProperRest(cs, t, cs[t..]);
    assert cs == cs[..t] + cs[t..];
    LinkedConcat(0, cs[..t], cs[t..]);
    hide Linked, Proper, TakeAll, Events, SeekFate, EndOf, Orphans, ProperFromAnywhere;
    OrphansTold(cfg, s, EndOf(0, cs[..t]), cs[t..], n);
  }

  lemma RestArrives(cs: seq<Chunk>, t: nat, n: nat, fate: Fates)
    requires Linked(0, cs) && EndOf(0, cs) <= n && t <= |cs|
    requires forall i :: t <= i < |cs| ==> fate(cs[i]).Intact?
    ensures Events(cs[t..], fate) == Events(cs[t..], SeekFate(n, 0))
    ensures forall i :: 0 <= i < |cs[t..]| ==> cs[t..][i].End() <= n
  {
    EndsWithin(cs, n);
    hide Linked, EndOf, Events;
    assert forall i :: 0 <= i < |cs[t..]| ==> cs[t..][i] == cs[t + i];
    EventsAgree(cs[t..], fate, SeekFate(n, 0));
  }

  lemma GoneBetween(cs: seq<Chunk>, j: nat, t: nat, fate: Fates)
    requires j < t <= |cs| && forall i :: j < i < t ==> fate(cs[i]).Gone?
    ensures Events(cs[j + 1..], fate) == Events(cs[t..], fate)
  {
    var y, z := cs[j + 1..t], cs[t..];
    assert cs[j + 1..] == y + z;
    EventsConcat(y, z, fate);
    assert AllGone(y, fate);
    GoneEvents(y, fate);
    hide Events;
  }

  // ---------- the theorem ----------

  /** The damaged physical record has no payload and now looks like unused space, and the first
      physical record behind its block, if there is one, does not continue a record. */
  ghost predicate Silent(cs: seq<Chunk>, g: Bytes, j: nat)
    requires j < |cs| && cs[j].End() <= |g|
  {
    cs[j].data == [] && g[cs[j].off + 6] == 0 && !Spans(cs, |g|, BlockEnd(cs[j].off))
  }

  /** The physical records at or after offset `k`. */
  function After(cs: seq<Chunk>, k: nat): seq<Chunk>
    decreases |cs|
  {
    if cs == [] || cs[0].off >= k then cs else After(cs[1..], k)
  }

  lemma {:induction false} AfterIs(cs: seq<Chunk>, t: nat, k: nat)
    requires Parted(cs, t, k)
    ensures t <= |cs| && After(cs, k) == cs[t..]
    decreases |cs|
  {
    if t > 0 {
      assert cs[0].off < k;
      assert forall i :: 0 <= i < |cs[1..]| ==> cs[1..][i] == cs[i + 1];
      AfterIs(cs[1..], t - 1, k);
    } else if cs != [] {
      assert cs[0].off >= k && cs[0..] == cs;
    }
  }

  /** What damage to the physical record `cs[j]` leads to: the dropped rest of the block, the
      record that the damaged one would have continued, and the parts behind the block of a record
      that was not to be seen from its start. */
  function Aftermath(cs: seq<Chunk>, g: Bytes, j: nat): seq<Report>
    requires j < |cs| && cs[j].End() <= |g|
  {
    DamagedEvent(g, cs[j]).drop
    + (if Continues(cs[j]) then [Report(|Unfinished(cs[..j])|, ErrorInMiddle)] else [])
    + Orphans(After(cs, BlockEnd(cs[j].off)))
  }

  /** Exactly what a checksumming reader reports about damage to one physical record. */
  lemma DamageTold(recs: seq<Bytes>, g: Bytes, j: nat, place: Place)
    requires j < |Layout(0, recs)|
    requires Damages(LogFile(recs), g, Layout(0, recs)[j], place)
    ensures Layout(0, recs)[j].End() <= |g|
    ensures Contents(g, Config(true, 0)).reports == Aftermath(Layout(0, recs), g, j)
  {
    DamagedContents(recs, g, j, place);
    LogStores(recs);
    ProperLayout(0, recs);
    hide Layout, LogFile, Contents, Stored, Linked, Proper, TakeAll, Events, DamageFate, DamagedEvent, Aftermath;
    hide Damages, EndOf;
    DamageHeard(Config(true, 0), Layout(0, recs), g, j);
  }

  lemma DamageHeard(cfg: Config, cs: seq<Chunk>, g: Bytes, j: nat)
    requires cfg == Config(true, 0) && j < |cs| && Linked(0, cs) && Proper(false, cs)
    requires cs[j].End() <= |g| == EndOf(0, cs)
    ensures TakeAll(cfg, Fresh(cfg), Events(cs, DamageFate(cs[j], DamagedEvent(g, cs[j])))).reports
            == Aftermath(cs, g, j)
  {
    hide DamageFate, DamagedEvent, Linked, Proper, TakeAll, Events, Event, EndOf, BlockEnd, Unfinished, Orphans, After;
    hide Parted, HeaderAt, Chunk.Fits, Fate, Interrupted;
    var e, k := DamagedEvent(g, cs[j]), BlockEnd(cs[j].off);
    LinkedAt(0, cs, j);
    DropFits(g, cs[j]);
    var fate := DamageFate(cs[j], e);
    var t := OffsetsGrow(0, cs, k);
    FatesAround(cs, j, t, e);
    var s2 := ThroughDamage(cfg, cs, j, t, e, fate);
    InThree(cfg, Fresh(cfg), cs, j, fate);
    AfterDamage(cfg, s2, cs, j, t, e, |g|, fate);
    AfterIs(cs, t, k);
  }

  /** The assembler behind the damaged physical record. */
  lemma ThroughDamage(cfg: Config, cs: seq<Chunk>, j: nat, t: nat, e: Phys, fate: Fates) returns (s2: State)
    requires cfg.initial == 0 && Linked(0, cs) && Proper(false, cs) && Fate(cs, j, t, e, fate)
    requires |e.drop| <= 1 && (e.drop != [] ==> e.drop[0].bytes <= e.next) && cs[j].off <= e.next
    ensures s2 == TakeAll(cfg, TakeAll(cfg, Fresh(cfg), Events(cs[..j], fate)), Event(cs[j], fate))
    ensures !s2.inFragment && !s2.resyncing
    ensures s2.reports == e.drop + if Continues(cs[j]) then [Report(|Unfinished(cs[..j])|, ErrorInMiddle)] else []
  {
    hide Linked, Proper, TakeAll, Events, Event, Unfinished;
    UpToDamage(cfg, cs, j, t, e, fate);
    var s1 := TakeAll(cfg, Fresh(cfg), Events(cs[..j], fate));
    AtDamage(cfg, s1, cs[j], e, fate);
    assert [] + e.drop == e.drop;
    s2 := TakeAll(cfg, s1, Event(cs[j], fate));
  }

  /** Everything before the damaged physical record arrives: nothing is reported, and a record is
      open just when the damaged one would have continued it. */
  lemma UpToDamage(cfg: Config, cs: seq<Chunk>, j: nat, t: nat, e: Phys, fate: Fates)
    requires cfg.initial == 0 && Linked(0, cs) && Proper(false, cs) && Fate(cs, j, t, e, fate)
    ensures var s := TakeAll(cfg, Fresh(cfg), Events(cs[..j], fate));
            && s.reports == [] && (s.inFragment <==> Continues(cs[j]))
            && s.scratch == Unfinished(cs[..j]) && |s.scratch| <= cs[j].off
  {
    Alternates(false, cs, j);
    OpenBefore(cs, j);
    LastOf(cs, j);
    hide Linked, Proper, TakeAll, Events, Unfinished;
    IntactPrefix(cfg, Fresh(cfg), cs, j, fate);
  }

  lemma LastOf(cs: seq<Chunk>, j: nat)
    requires j <= |cs|
    ensures cs[..j] == [] <==> j == 0
    ensures j > 0 ==> cs[..j][|cs[..j]| - 1] == cs[j - 1]
  {
  }

  lemma OpenBefore(cs: seq<Chunk>, j: nat)
    requires Linked(0, cs) && j < |cs|
    ensures |Unfinished(cs[..j])| <= cs[j].off
  {
    LinkedAt(0, cs, j);
    assert cs == cs[..j] + cs[j..];
    LinkedConcat(0, cs[..j], cs[j..]);
    hide Unfinished, Linked;
    UnfinishedFits(0, cs[..j]);
    HeaderAtFits(EndOf(0, cs[..j]));
  }

  /** Damage to one physical record is reported, except exactly when it is silent: then the rest
      of the block is lost, with all records that have a part in it, and nobody hears of it. */
  lemma DamageReports(recs: seq<Bytes>, g: Bytes, j: nat, place: Place)
    requires j < |Layout(0, recs)|
    requires Damages(LogFile(recs), g, Layout(0, recs)[j], place)
    ensures Layout(0, recs)[j].End() <= |g|
    ensures Contents(g, Config(true, 0)).reports == [] <==> Silent(Layout(0, recs), g, j)
  {
    hide Layout, LogFile, Contents, Stored, Linked, Proper, EmptyBegins, Damages, EndOf, Overruns, Silent, Aftermath;
    DamageTold(recs, g, j, place);
    LogStores(recs);
    ProperLayout(0, recs);
    EmptyLayout(0, recs);
    if g[Layout(0, recs)[j].off + 6] == 0 { NotBoth(LogFile(recs), g, Layout(0, recs)[j], place); }
    SameLength(LogFile(recs), g, Layout(0, recs)[j], place);
    NothingTold(Layout(0, recs), g, j);
  }

  lemma SameLength(f: Bytes, g: Bytes, c: Chunk, place: Place)
    requires Damages(f, g, c, place)
    ensures |f| == |g|
  {
  }

  lemma NothingTold(cs: seq<Chunk>, g: Bytes, j: nat)
    requires j < |cs| && Linked(0, cs) && Proper(false, cs) && EmptyBegins(cs)
    requires cs[j].End() <= |g| == EndOf(0, cs) && (g[cs[j].off + 6] == 0 ==> !Overruns(g, cs[j]))
    ensures Aftermath(cs, g, j) == [] <==> Silent(cs, g, j)
  {
    hide Linked, Proper, EmptyBegins, DamagedEvent, Overruns, EndOf, Spans, BlockEnd, Parted, Unfinished, After;
    hide Orphans, HeaderAt, Chunk.Fits, Continues;
    var k := BlockEnd(cs[j].off);
    LinkedAt(0, cs, j);
    DropFits(g, cs[j]);
    if cs[j].data == [] { EmptyAt(cs, j); }
    NoOrphans(cs, |g|, k);
    ThreeParts(DamagedEvent(g, cs[j]).drop,
               if Continues(cs[j]) then [Report(|Unfinished(cs[..j])|, ErrorInMiddle)] else [],
               Orphans(After(cs, k)));
  }

  lemma NoOrphans(cs: seq<Chunk>, n: nat, k: nat)
    requires Linked(0, cs) && Proper(false, cs) && EndOf(0, cs) <= n
    ensures Orphans(After(cs, k)) == [] <==> !Spans(cs, n, k)
  {
    var t := OffsetsGrow(0, cs, k);
    hide Linked, Proper, EndOf, Spans, Parted, After, Orphans;
    TornAt(cs, t, n, k);
    AfterIs(cs, t, k);
    OrphansNone(cs[t..]);
  }

  lemma ThreeParts(a: seq<Report>, b: seq<Report>, c: seq<Report>)
    ensures a + b + c == [] <==> a == [] && b == [] && c == []
  {
    assert |a + b + c| == |a| + |b| + |c|;
  }

  lemma OrphansNone(cs: seq<Chunk>)
    ensures Orphans(cs) == [] <==> cs == [] || !Continues(cs[0])
  {
  }

  /** A type byte that was cleared was not damaged together with the length. */
  lemma NotBoth(f: Bytes, g: Bytes, c: Chunk, place: Place)
    requires Stored(f, c) && Damages(f, g, c, place) && g[c.off + 6] == 0
    ensures !Overruns(g, c)
  {
    StoredType(f, c);
    assert f[c.off + 6] != g[c.off + 6];
    if !place.InLength? {
      StoredAlters(f, g, c, place);
      LengthIsKept(c, g);
    }
  }

  lemma StoredType(f: Bytes, c: Chunk)
    requires Stored(f, c)
    ensures f[c.off + 6] != 0
  {
    hide StoredCrc, Fixed32, ToByte;
    assert f[c.off + 6] == f[c.off..c.End()][6] == ChunkBytes(c)[6] == ToByte(c.kind);
    hide *;
    TypeRoundTrip(c.kind);
    TypeIsZero(ToByte(c.kind));
  }

  lemma InThree(cfg: Config, s: State, cs: seq<Chunk>, j: nat, fate: Fates)
    requires j < |cs|
    ensures var s1 := TakeAll(cfg, s, Events(cs[..j], fate));
            TakeAll(cfg, s, Events(cs, fate))
            == TakeAll(cfg, TakeAll(cfg, s1, Event(cs[j], fate)), Events(cs[j + 1..], fate))
  {
    var rest := [cs[j]] + cs[j + 1..];
    assert cs == cs[..j] + rest;
    hide TakeAll, Events, Event;
    EventsConcat(cs[..j], rest, fate);
    TakeAllConcat(cfg, s, Events(cs[..j], fate), Events(rest, fate));
    TakeFirst(cfg, TakeAll(cfg, s, Events(cs[..j], fate)), cs[j], cs[j + 1..], fate);
  }

  lemma DropFits(g: Bytes, c: Chunk)
    requires c.End() <= |g| && c.Fits()
    ensures var e := DamagedEvent(g, c);
            && e.Bad? && (e.drop == [] <==> c.data == [] && g[c.off + 6] == 0 && !Overruns(g, c))
            && |e.drop| <= 1 && (e.drop != [] ==> e.drop[0].bytes <= e.next) && c.off <= e.next
  {
    hide Length;
  }

  /** `t` is the first physical record at or after `k`. */
  lemma TornAt(cs: seq<Chunk>, t: nat, n: nat, k: nat)
    requires Linked(0, cs) && Proper(false, cs) && EndOf(0, cs) <= n && Parted(cs, t, k)
    ensures t <= |cs| && (Spans(cs, n, k) <==> t < |cs| && Continues(cs[t]))
  {
    EndsWithin(cs, n);
    hide Linked, Proper, EndOf, Spans;
    SpansAt(cs, t, n, k);
  }

  lemma EmptyAt(cs: seq<Chunk>, j: nat)
    requires EmptyBegins(cs) && j < |cs| && cs[j].data == []
    ensures !Continues(cs[j])
  {
  }

  lemma FatesAround(cs: seq<Chunk>, j: nat, t: nat, e: Phys)
    requires Linked(0, cs) && j < |cs| && t <= |cs| && e.Bad? && Parted(cs, t, BlockEnd(cs[j].off))
    ensures Fate(cs, j, t, e, DamageFate(cs[j], e))
    ensures DamageFate(cs[j], e)(cs[j]) == Broken(e.next, e.drop)
  {
    forall i | 0 <= i < |cs| && i != j ensures if i < j then cs[i].off < cs[j].off else cs[i].off > cs[j].off {
      LinkedOrdered(0, cs, if i < j then i else j, if i < j then j else i);
    }
  }
}
