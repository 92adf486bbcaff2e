/** What a reader opened at any initial offset gets back from any byte prefix of a log. */
module LogSeek {
  import opened Coding
  import opened LogFormat
  import opened LogParse
  import opened LogChunks
  import opened LogAssembly

  /** With the file cut off after `n` bytes and the reader opened at `k`: a physical record
      that is not wholly there is never seen, and one that starts before `k` is passed over. */
  function SeekFate(n: nat, k: nat): Fates {
    (c: Chunk) => if c.End() > n then Gone else if c.off < k then Broken(c.End(), []) else Intact
  }

  lemma {:induction false} EndsGrow(p: nat, cs: seq<Chunk>, n: nat, k: nat)
    requires Linked(p, cs) && n < p
    ensures AllGone(cs, SeekFate(n, k))
    decreases |cs|
  {
    if cs != [] {
      HeaderAtFits(p);
      EndsGrow(cs[0].End(), cs[1..], n, k);
    }
  }

  /** The physical records that the reader finds from `p` on. */
  lemma {:induction false} StreamIs(f: Bytes, n: nat, cfg: Config, p: nat, cs: seq<Chunk>)
    requires n <= |f| <= EndOf(p, cs)
    requires Linked(p, cs)
    requires forall i :: 0 <= i < |cs| ==> Stored(f, cs[i])
    ensures Stream(f[..n], cfg, p) == Events(cs, SeekFate(n, cfg.initial))
    decreases |cs|
  {
    hide Stored, Next;
    var fate := SeekFate(n, cfg.initial);
    if cs == [] {
      HeaderAtFits(p);
      NextAtEnd(f[..n], cfg, p);
    } else {
      var c := cs[0];
      assert Stored(f, c);
      if c.End() <= n {
        StoredInPrefix(f, n, c);
        NextStored(f[..n], cfg, p, c);
        assert forall i :: 0 <= i < |cs[1..]| ==> cs[1..][i] == cs[i + 1];
        StreamIs(f, n, cfg, c.End(), cs[1..]);
      } else {
        NextCutOff(f, n, cfg, p, c);
        HeaderAtFits(p);
        RestGone(p, cs, n, cfg.initial);
        GoneEvents(cs, fate);
      }
    }
  }

  lemma RestGone(p: nat, cs: seq<Chunk>, n: nat, k: nat)
    requires Linked(p, cs) && cs != [] && cs[0].End() > n
    ensures AllGone(cs, SeekFate(n, k))
  {
    EndsGrow(cs[0].End(), cs[1..], n, k);
    assert cs == [cs[0]] + cs[1..];
  }

  lemma StoredInPrefix(f: Bytes, n: nat, c: Chunk)
    requires Stored(f, c) && c.End() <= n <= |f|
    ensures Stored(f[..n], c)
  {
    assert f[..n][c.off..c.End()] == f[c.off..c.End()];
  }

  lemma BlockStart(p: nat, b: nat)
    requires p <= b <= HeaderAt(p) && b % BLOCK == 0
    ensures HeaderAt(p) == b == HeaderAt(b)
  {
  }

  lemma EndsInBlock(c: Chunk, b: nat)
    requires c.Fits() && c.off < b && b % BLOCK == 0
    ensures c.End() <= b
  {
  }

  /** Every block of a log begins with a physical record: the ones from block boundary `b` on
      follow each other as if the file began there. */
  lemma {:induction false} FromBlock(p: nat, cs: seq<Chunk>, b: nat) returns (i: nat)
    requires Linked(p, cs) && p <= b && b % BLOCK == 0
    ensures i <= |cs|
    ensures forall j :: 0 <= j < i ==> cs[j].off < b
    ensures Linked(b, cs[i..]) && EndOf(b, cs[i..]) >= EndOf(p, cs)
    ensures i < |cs| ==> cs[i].off == b
    decreases |cs|
  {
    hide HeaderAt, Chunk.Fits;
    if cs == [] {
      i := 0;
    } else if cs[0].off >= b {
      i := 0;
      assert cs[0..] == cs;
      BlockStart(p, b);
    } else {
      EndsInBlock(cs[0], b);
      i := FromBlock(cs[0].End(), cs[1..], b);
      i := i + 1;
      assert cs[i..] == cs[1..][i - 1..];
      assert forall j :: 0 < j < i ==> cs[j] == cs[1..][j - 1];
    }
  }

  /** No header lies between the block the reader starts in and the initial offset. */
  lemma SkipsNothing(f: Bytes, k: nat, c: Chunk)
    requires Stored(f, c) && c.off < SkipTo(k)
    ensures c.off < k
  {
    var a, b := c.off / BLOCK, k / BLOCK;
    assert c.off == BLOCK * a + c.off % BLOCK && k == BLOCK * b + k % BLOCK;
    assert c.off % BLOCK + HEADER <= BLOCK;
    assert a <= b;
    if a == b {
      assert k % BLOCK <= BLOCK - 6 ==> SkipTo(k) == BLOCK * b;
    }
  }

  /** Reading starts in the block with the initial offset, or in the next one if that offset is
      among the last five of its block. */
  lemma SkipPlace(k: nat)
    ensures SkipTo(k) == 4096 * ((k + 5) / 4096)
  {
  }

  lemma SkipsToBlock(k: nat)
    ensures SkipTo(k) % BLOCK == 0
  {
  }

  // ---------- records ----------

  /** Two assemblers that differ in what they skip silently and in what they reported. */
  ghost predicate Alike(s: State, t: State) {
    && s.inFragment == t.inFragment && s.scratch == t.scratch && s.start == t.start && s.records == t.records
    && (s.inFragment ==> !s.resyncing && !t.resyncing)
  }

  lemma TakeAlike(cfg: Config, s: State, t: State, e: Phys)
    requires Alike(s, t) && !e.End?
    requires !s.inFragment ==> s.scratch == [] && s.start == 0
    ensures Alike(Take(cfg, s, e), Take(cfg, t, e))
    ensures var s' := Take(cfg, s, e); !s'.inFragment ==> s'.scratch == [] && s'.start == 0
  {
  }

  lemma {:induction false} TakeAllAlike(cfg: Config, s: State, t: State, es: seq<Phys>)
    requires Alike(s, t) && NoEnd(es)
    requires !s.inFragment ==> s.scratch == [] && s.start == 0
    ensures TakeAll(cfg, s, es).records == TakeAll(cfg, t, es).records
    decreases |es|
  {
    hide Take;
    if es != [] {
      TakeAlike(cfg, s, t, es[0]);
      TakeAllAlike(cfg, Take(cfg, s, es[0]), Take(cfg, t, es[0]), es[1..]);
    }
  }

  ghost predicate Below(cs: seq<Chunk>, m: nat, k: nat) {
    m <= |cs| && forall j :: 0 <= j < m ==> cs[j].off < k
  }

  lemma {:induction false} PassOver(cfg: Config, s: State, cs: seq<Chunk>, n: nat)
    requires !s.inFragment && s.scratch == [] && s.start == 0
    requires forall i :: 0 <= i < |cs| ==> cs[i].off < cfg.initial
    ensures Alike(TakeAll(cfg, s, Events(cs, SeekFate(n, cfg.initial))), s)
    ensures TakeAll(cfg, s, Events(cs, SeekFate(n, cfg.initial))).reports == s.reports
    ensures TakeAll(cfg, s, Events(cs, SeekFate(n, cfg.initial))).resyncing
       ==> s.resyncing && (cs == [] || cs[0].End() > n)
    decreases |cs|
  {
    if cs != [] {
      var fate := SeekFate(n, cfg.initial);
      assert cs == [cs[0]] + cs[1..];
      TakeFirst(cfg, s, cs[0], cs[1..], fate);
      var s1 := TakeAll(cfg, s, Event(cs[0], fate));
      assert s1 == if fate(cs[0]).Gone? then s else s.(resyncing := false) by {
        if !fate(cs[0]).Gone? {
          assert Event(cs[0], fate) == [Bad(cs[0].End(), [])] + [];
          TakeOne(cfg, s, Bad(cs[0].End(), []), []);
        }
      }
      hide TakeAll, Event, Events;
      PassOver(cfg, s1, cs[1..], n);
    }
  }

  lemma {:induction false} SeekOrderly(p: nat, cs: seq<Chunk>, n: nat, k: nat, intact: bool)
    requires Linked(p, cs)
    ensures Orderly(intact, cs, SeekFate(n, k))
    decreases |cs|
  {
    if cs != [] {
      if cs[0].End() > n {
        RestGone(p, cs, n, k);
        AllGoneOrderly(intact, cs, SeekFate(n, k));
      } else {
        SeekOrderly(cs[0].End(), cs[1..], n, k, SeekFate(n, k)(cs[0]).Intact?);
      }
    }
  }

  /** The reader starts in the block that can hold the first wanted record, and passes nothing
      that it should have seen. */
  lemma SeekFrom(f: Bytes, n: nat, cfg: Config, cs: seq<Chunk>) returns (i: nat)
    requires n <= |f| == EndOf(0, cs)
    requires Linked(0, cs)
    requires forall i :: 0 <= i < |cs| ==> Stored(f, cs[i])
    ensures i <= |cs|
    ensures forall j :: 0 <= j < i ==> cs[j].off < cfg.initial
    ensures i < |cs| ==> cs[i].off == SkipTo(cfg.initial)
    ensures Linked(SkipTo(cfg.initial), cs[i..])
    ensures Stream(f[..n], cfg, SkipTo(cfg.initial)) == Events(cs[i..], SeekFate(n, cfg.initial))
  {
    SkipsToBlock(cfg.initial);
    hide SkipTo, Stored, Linked, Events, SeekFate, Stream, HeaderAt, Chunk.Fits, EndOf;
    i := FromBlock(0, cs, SkipTo(cfg.initial));
    forall j | 0 <= j < i ensures cs[j].off < cfg.initial {
      SkipsNothing(f, cfg.initial, cs[j]);
    }
    assert forall j :: 0 <= j < |cs[i..]| ==> cs[i..][j] == cs[i + j];
    StreamIs(f, n, cfg, SkipTo(cfg.initial), cs[i..]);
  }

  lemma SeekContents(recs: seq<Bytes>, n: nat, cfg: Config) returns (i: nat)
    requires n <= |LogFile(recs)|
    ensures var cs := Layout(0, recs);
            && i <= |cs| && Linked(0, cs) && Below(cs, i, cfg.initial)
            && (i < |cs| ==> cs[i].off == SkipTo(cfg.initial))
            && Linked(SkipTo(cfg.initial), cs[i..])
            && Contents(LogFile(recs)[..n], cfg)
               == TakeAll(cfg, Fresh(cfg), Events(cs[i..], SeekFate(n, cfg.initial))).Ended()
  {
    LogStores(recs);
    hide LogFile, Layout, Stored, Linked, SkipTo, Events, TakeAll, SeekFate, Stream, ReadAll;
    i := SeekFrom(LogFile(recs), n, cfg, Layout(0, recs));
    ReadAllTakes(LogFile(recs)[..n], cfg, SkipTo(cfg.initial), Fresh(cfg));
  }

  /** Any prefix of a log, read from any initial offset: exactly the records that lie wholly in
      the prefix and whose first physical record starts at or after the offset, in order, each
      with the offset at which the writer put it. */
  lemma ReadBack(recs: seq<Bytes>, n: nat, cfg: Config)
    requires n <= |LogFile(recs)|
    ensures Contents(LogFile(recs)[..n], cfg).records == Kept(0, recs, SeekFate(n, cfg.initial))
  {
    hide Layout, LogFile, Contents, Linked, Orderly, TakeAll, Events, SeekFate, Kept, Below, SkipTo;
    var i := SeekContents(recs, n, cfg);
    SeekOrderly(0, Layout(0, recs), n, cfg.initial, false);
    SameRecords(cfg, Fresh(cfg), Layout(0, recs), i, n);
    TakeRecords(cfg, Fresh(cfg), 0, recs, false, SeekFate(n, cfg.initial));
  }

  /** Physical records before the initial offset make no difference to what is delivered. */
  lemma SameRecords(cfg: Config, s: State, cs: seq<Chunk>, i: nat, n: nat)
    requires i <= |cs| && Below(cs, i, cfg.initial) && !s.inFragment && s.scratch == [] && s.start == 0
    ensures TakeAll(cfg, s, Events(cs[i..], SeekFate(n, cfg.initial))).records
            == TakeAll(cfg, s, Events(cs, SeekFate(n, cfg.initial))).records
  {
    var fate, x, y := SeekFate(n, cfg.initial), cs[..i], cs[i..];
    assert cs == x + y;
    PassOver(cfg, s, x, n);
    hide TakeAll, Events, SeekFate;
    TakeAllAlike(cfg, s, TakeAll(cfg, s, Events(x, fate)), Events(y, fate));
    EventsConcat(x, y, fate);
    TakeAllConcat(cfg, s, Events(x, fate), Events(y, fate));
  }

  // ---------- reports ----------

  /** First fragments and continuations alternate as the writer makes them. */
  ghost predicate Proper(open: bool, cs: seq<Chunk>)
    decreases |cs|
  {
    cs == [] ||
    (FULL <= cs[0].kind <= LAST && (open <==> cs[0].kind == MIDDLE || cs[0].kind == LAST)
     && Proper(cs[0].kind == FIRST || cs[0].kind == MIDDLE, cs[1..]))
  }

  lemma {:induction false} ProperFragments(start: nat, rec: Bytes, begin: bool, rest: seq<Chunk>)
    requires Proper(false, rest)
    ensures Proper(!begin, Fragments(start, rec, begin) + rest)
    decreases |rec|, if Avail(HeaderAt(start)) == 0 then 1 else 0
  {
    var cs := Fragments(start, rec, begin);
    FragmentsUnfold(start, rec, begin);
    hide Fragments, HeaderAt, Avail;
    var c, more := cs[0], cs[1..];
    assert (cs + rest)[1..] == more + rest;
    if |c.data| == |rec| {
      assert more + rest == rest;
    } else {
      ProperFragments(c.End(), rec[|c.data|..], false, rest);
    }
  }

  lemma {:induction false} ProperLayout(start: nat, recs: seq<Bytes>)
    ensures Proper(false, Layout(start, recs))
    decreases |recs|
  {
    hide Fragments;
    if recs != [] {
      var cs := Fragments(start, recs[0], true);
      ProperLayout(EndOf(start, cs), recs[1..]);
      ProperFragments(start, recs[0], true, Layout(EndOf(start, cs), recs[1..]));
    }
  }

  lemma {:induction false} ProperFrom(open: bool, cs: seq<Chunk>, i: nat)
    requires Proper(open, cs) && i < |cs|
    ensures Proper(cs[i].kind == MIDDLE || cs[i].kind == LAST, cs[i..])
    decreases |cs|
  {
    if i > 0 {
      assert cs[i..] == cs[1..][i - 1..];
      ProperFrom(cs[0].kind == FIRST || cs[0].kind == MIDDLE, cs[1..], i - 1);
    } else {
      assert cs[0..] == cs;
    }
  }

  /** Physical records that all arrive cause no report, from the start of a record or, while the
      reader resynchronizes, from the middle of one. */
  lemma {:induction false} QuietTake(cfg: Config, s: State, open: bool, p: nat, cs: seq<Chunk>, n: nat)
    requires Linked(p, cs) && Proper(open, cs)
    requires forall i :: 0 <= i < |cs| ==> cs[i].off >= cfg.initial
    requires if open then s.inFragment != s.resyncing else !s.inFragment
    ensures TakeAll(cfg, s, Events(cs, SeekFate(n, cfg.initial))).reports == s.reports
    decreases |cs|
  {
    if cs != [] {
      var fate, c := SeekFate(n, cfg.initial), cs[0];
      HeaderAtFits(p);
      if c.End() > n {
        RestGone(p, cs, n, cfg.initial);
        GoneEvents(cs, fate);
      } else {
        assert cs == [c] + cs[1..];
        assert forall i :: 0 <= i < |cs[1..]| ==> cs[1..][i] == cs[i + 1];
        TakeFirst(cfg, s, c, cs[1..], fate);
        TakeEvent(cfg, s, c, fate);
        var s1 := TakeAll(cfg, s, Event(c, fate));
        hide TakeAll, Events, Event, HeaderAt;
        QuietTake(cfg, s1, c.kind == FIRST || c.kind == MIDDLE, c.End(), cs[1..], n);
      }
    }
  }

  lemma {:induction false} ReportsGrow(cfg: Config, s: State, es: seq<Phys>)
    requires NoEnd(es)
    ensures |TakeAll(cfg, s, es).reports| >= |s.reports|
    decreases |es|
  {
    if es != [] {
      ReportsGrow(cfg, Take(cfg, s, es[0]), es[1..]);
    }
  }

  /** The physical records at or after `k` are those from index `m` on. */
  ghost predicate Parted(cs: seq<Chunk>, m: nat, k: nat) {
    Below(cs, m, k) && forall j :: m <= j < |cs| ==> cs[j].off >= k
  }

  lemma {:induction false} OffsetsGrow(p: nat, cs: seq<Chunk>, k: nat) returns (m: nat)
    requires Linked(p, cs)
    ensures m <= |cs| && Parted(cs, m, k)
    decreases |cs|
  {
    if cs == [] {
      m := 0;
    } else if cs[0].off >= k {
      m := 0;
      forall j | 0 <= j < |cs| ensures cs[j].off >= k {
        if j > 0 { LinkedOrdered(p, cs, 0, j); }
      }
    } else {
      m := OffsetsGrow(cs[0].End(), cs[1..], k);
      m := m + 1;
      assert forall j :: 0 < j < |cs| ==> cs[j] == cs[1..][j - 1];
    }
  }

  /** A continuation is the first thing that starts at or after `k`, and it lies in the prefix. */
  ghost predicate Spans(cs: seq<Chunk>, n: nat, k: nat) {
    exists j :: 0 <= j < |cs| && IsTorn(cs, j, n, k)
  }

  ghost predicate IsTorn(cs: seq<Chunk>, j: nat, n: nat, k: nat)
    requires j < |cs|
  {
    && (cs[j].kind == MIDDLE || cs[j].kind == LAST)
    && cs[j].off >= k && cs[j].End() <= n
    && (j > 0 ==> cs[j - 1].off < k)
  }

  /** A continuation that the assembler does not expect is reported. */
  lemma TornReports(cfg: Config, s: State, cs: seq<Chunk>, n: nat)
    requires cs != [] && IsTorn(cs, 0, n, cfg.initial)
    requires !s.inFragment && !s.resyncing
    ensures TakeAll(cfg, s, Events(cs, SeekFate(n, cfg.initial))).reports != []
  {
    var fate := SeekFate(n, cfg.initial);
    assert cs == [cs[0]] + cs[1..];
    TakeFirst(cfg, s, cs[0], cs[1..], fate);
    TakeEvent(cfg, s, cs[0], fate);
    var s1 := TakeAll(cfg, s, Event(cs[0], fate));
    assert |s1.reports| > 0;
    ReportsGrow(cfg, s1, Events(cs[1..], fate));
  }

  /** The rest of a log from the first physical record at or after the initial offset: silent
      unless it begins with a continuation and the reader no longer resynchronizes. */
  lemma RestReports(cfg: Config, s: State, p: nat, cs: seq<Chunk>, n: nat)
    requires Linked(p, cs) && (cs != [] ==> Proper(cs[0].kind == MIDDLE || cs[0].kind == LAST, cs))
    requires forall i :: 0 <= i < |cs| ==> cs[i].off >= cfg.initial
    requires !s.inFragment && s.reports == []
    ensures TakeAll(cfg, s, Events(cs, SeekFate(n, cfg.initial))).reports == []
       <==> s.resyncing || cs == [] || !IsTorn(cs, 0, n, cfg.initial)
  {
    if cs != [] {
      if !IsTorn(cs, 0, n, cfg.initial) && cs[0].End() > n {
        RestGone(p, cs, n, cfg.initial);
        GoneEvents(cs, SeekFate(n, cfg.initial));
      } else if IsTorn(cs, 0, n, cfg.initial) && !s.resyncing {
        TornReports(cfg, s, cs, n);
      } else {
        QuietTake(cfg, s, cs[0].kind == MIDDLE || cs[0].kind == LAST, p, cs, n);
      }
    }
  }

  /** The first physical record at or after `k` decides whether a continuation is torn. */
  lemma SpansAt(cs: seq<Chunk>, t: nat, n: nat, k: nat)
    requires Proper(false, cs) && Parted(cs, t, k)
    ensures Spans(cs, n, k) <==> Torn(cs[t..], n, k)
  {
    if t < |cs| && IsTorn(cs[t..], 0, n, k) {
      assert IsTorn(cs, t, n, k);
    }
    forall j | 0 <= j < |cs| && IsTorn(cs, j, n, k) ensures j == t {
    }
  }

  /** A log cut off anywhere and read from offset `k` causes no report, with one exception. When
      the reader starts before `k` in its block, the first header it meets ends the
      resynchronization, and the continuations of a record that began before `k` are reported
      as corruption although nothing is wrong with the file. */
  lemma SeekReports(recs: seq<Bytes>, n: nat, cfg: Config)
    requires n <= |LogFile(recs)|
    ensures Contents(LogFile(recs)[..n], cfg).reports == []
       <==> SkipTo(cfg.initial) >= cfg.initial || !Spans(Layout(0, recs), n, cfg.initial)
  {
    var i := SeekContents(recs, n, cfg);
    ProperLayout(0, recs);
    hide Layout, LogFile, Contents, SkipTo, TakeAll, Events, SeekFate, Spans;
    TornIff(cfg, Layout(0, recs), i, n);
  }

  lemma TornIff(cfg: Config, cs: seq<Chunk>, i: nat, n: nat)
    requires i <= |cs| && Linked(0, cs) && Proper(false, cs) && Below(cs, i, cfg.initial)
    requires i < |cs| ==> cs[i].off == SkipTo(cfg.initial)
    requires Linked(SkipTo(cfg.initial), cs[i..])
    ensures TakeAll(cfg, Fresh(cfg), Events(cs[i..], SeekFate(n, cfg.initial))).reports == []
       <==> SkipTo(cfg.initial) >= cfg.initial || !Spans(cs, n, cfg.initial)
  {
    var k := cfg.initial;
    var t := OffsetsGrow(0, cs, k);
    var z := cs[t..];
    hide SkipTo, TakeAll, Events, SeekFate, Linked, Spans, Proper, Parted, Below, SplitsAt, Torn, ProperFromAnywhere;
    FirstWanted(cs, i, t, z, k);
    SpansAt(cs, t, n, k);
    ProperRest(cs, t, z);
    SplitReports(cfg, Fresh(cfg), SkipTo(k), cs[i..], t - i, z, n);
    if k == 0 { BeginsWhole(cs, z, n); }
  }

  /** The physical records at or after `k` are `z`, and they follow the first `m`. */
  ghost predicate SplitsAt(y: seq<Chunk>, m: nat, z: seq<Chunk>, k: nat) {
    m <= |y| && Parted(y, m, k) && z == y[m..]
  }

  /** A list that begins at the first fragment of a record or at a continuation. */
  ghost predicate ProperFromAnywhere(z: seq<Chunk>) {
    z == [] || Proper(z[0].kind == MIDDLE || z[0].kind == LAST, z)
  }

  lemma ProperRest(cs: seq<Chunk>, t: nat, z: seq<Chunk>)
    requires Proper(false, cs) && t <= |cs| && z == cs[t..]
    ensures ProperFromAnywhere(z)
  {
    hide Proper;
    if t < |cs| { ProperFrom(false, cs, t); }
  }

  /** Where the physical records at or after `k` begin, in the log and from index `i` on. */
  lemma FirstWanted(cs: seq<Chunk>, i: nat, t: nat, z: seq<Chunk>, k: nat)
    requires Below(cs, i, k) && Parted(cs, t, k) && z == cs[t..]
    ensures i <= t && SplitsAt(cs[i..], t - i, z, k) && (i < t ==> cs[i].off < k)
    ensures i == t < |cs| ==> cs[i].off >= k
    ensures k == 0 ==> z == cs
  {
    if t < |cs| { assert cs[t].off >= k; }
    if t > 0 { assert cs[0].off < k; }
    assert i <= t;
    assert forall j :: 0 <= j < |cs[i..]| ==> cs[i..][j] == cs[i + j];
    assert cs[i..][t - i..] == cs[t..];
  }

  lemma BeginsWhole(cs: seq<Chunk>, z: seq<Chunk>, n: nat)
    requires Proper(false, cs) && z == cs
    ensures !Torn(z, n, 0)
  {
  }

  /** The list begins with a continuation that lies in the prefix. */
  ghost predicate Torn(z: seq<Chunk>, n: nat, k: nat) { z != [] && IsTorn(z, 0, n, k) }

  lemma SplitReports(cfg: Config, s: State, p: nat, y: seq<Chunk>, m: nat, z: seq<Chunk>, n: nat)
    requires Linked(p, y) && SplitsAt(y, m, z, cfg.initial) && ProperFromAnywhere(z)
    requires !s.inFragment && s.scratch == [] && s.start == 0 && s.reports == []
    ensures TakeAll(cfg, s, Events(y, SeekFate(n, cfg.initial))).reports == []
       <==> (m == 0 && s.resyncing) || !Torn(z, n, cfg.initial)
  {
    hide Linked, Proper, TakeAll, Events, SeekFate, EndOf;
    var s1 := Passed(cfg, s, y, m, n);
    if m < |y| {
      LinkedAt(p, y, m);
      if m > 0 { LinkedOrdered(p, y, 0, m); }
      RestReports(cfg, s1, EndOf(p, y[..m]), z, n);
    } else {
      NoEvents(SeekFate(n, cfg.initial));
      TakeNone(cfg, s1);
    }
  }

  /** The assembler after the physical records before the initial offset. */
  lemma Passed(cfg: Config, s: State, y: seq<Chunk>, m: nat, n: nat) returns (s1: State)
    requires m <= |y| && !s.inFragment && s.scratch == [] && s.start == 0 && s.reports == []
    requires Below(y, m, cfg.initial)
    ensures TakeAll(cfg, s, Events(y, SeekFate(n, cfg.initial)))
            == TakeAll(cfg, s1, Events(y[m..], SeekFate(n, cfg.initial)))
    ensures !s1.inFragment && s1.reports == [] && (m == 0 ==> s1 == s)
    ensures s1.resyncing ==> s.resyncing && (m == 0 || y[0].End() > n)
  {
    var x, z, fate := y[..m], y[m..], SeekFate(n, cfg.initial);
    assert y == x + z;
    hide TakeAll, Events, SeekFate;
    EventsConcat(x, z, fate);
    TakeAllConcat(cfg, s, Events(x, fate), Events(z, fate));
    PassOver(cfg, s, x, n);
    s1 := TakeAll(cfg, s, Events(x, fate));
    if m == 0 {
      NoEvents(fate);
      TakeNone(cfg, s);
    }
  }
}
