/** The log's promises: round trip, crash safety and seeking. */
module LogTheorems {
  import opened Coding
  import opened LogFormat
  import opened LogParse
  import opened LogAssembly
  import opened LogSeek

  /** The records as the writer placed them in a file of `start` bytes. */
  function Placed(start: nat, recs: seq<Bytes>): (ps: seq<Record>)
    ensures |ps| == |recs|
    decreases |recs|
  {
    if recs == [] then []
    else [Record(recs[0], HeaderAt(start))] + Placed(EndOf(start, Fragments(start, recs[0], true)), recs[1..])
  }

  /** The records placed at or after offset `k`. */
  function From(ps: seq<Record>, k: nat): seq<Record>
    decreases |ps|
  {
    if ps == [] then [] else (if ps[0].off >= k then [ps[0]] else []) + From(ps[1..], k)
  }

  /** `m` records lie wholly in the first `n` bytes of a log. */
  ghost predicate WhollyIn(recs: seq<Bytes>, m: nat, n: nat) {
    m <= |recs| && |LogFile(recs[..m])| <= n && (m < |recs| ==> n < |LogFile(recs[..m + 1])|)
  }

  /** The end of the first `m` records. */
  function Reach(start: nat, recs: seq<Bytes>, m: nat): nat
    requires m <= |recs|
  {
    EndOf(start, Layout(start, recs[..m]))
  }

  lemma ReachUnfold(start: nat, recs: seq<Bytes>, m: nat)
    requires 0 < m <= |recs|
    ensures var e := EndOf(start, Fragments(start, recs[0], true));
            Reach(start, recs, m) == Reach(e, recs[1..], m - 1) >= e
  {
    var cs := Fragments(start, recs[0], true);
    var e := EndOf(start, cs);
    assert recs[..m][1..] == recs[1..][..m - 1] && recs[..m][0] == recs[0];
    var rest := Layout(e, recs[1..][..m - 1]);
    hide Fragments;
    assert Layout(start, recs[..m]) == cs + rest;
    LayoutLinked(e, recs[1..][..m - 1]);
    FragmentsLinked(start, recs[0], true);
    LinkedConcat(start, cs, rest);
    if rest != [] { LinkedAt(e, rest, |rest| - 1); }
  }

  lemma FirstIntact(start: nat, rec: Bytes, n: nat, k: nat)
    ensures var cs := Fragments(start, rec, true);
            AllIntact(cs, SeekFate(n, k)) <==> cs[0].off >= k && EndOf(start, cs) <= n
  {
    var cs := Fragments(start, rec, true);
    FragmentsLinked(start, rec, true);
    hide Fragments;
    assert cs[0] in cs && cs[|cs| - 1] in cs;
    forall c | c in cs ensures c.off >= cs[0].off && c.End() <= EndOf(start, cs) {
      var i :| 0 <= i < |cs| && cs[i] == c;
      if i > 0 { LinkedOrdered(start, cs, 0, i); }
      if i < |cs| - 1 { LinkedOrdered(start, cs, i, |cs| - 1); }
    }
  }

  lemma {:induction false} KeptPlaced(start: nat, recs: seq<Bytes>, m: nat, n: nat, k: nat)
    requires m <= |recs| && (m > 0 ==> Reach(start, recs, m) <= n)
    requires m < |recs| ==> n < Reach(start, recs, m + 1)
    ensures Kept(start, recs, SeekFate(n, k)) == From(Placed(start, recs[..m]), k)
    decreases |recs|
  {
    hide Fragments, SeekFate, Reach;
    if recs != [] {
      var cs := Fragments(start, recs[0], true);
      var e := EndOf(start, cs);
      FirstIntact(start, recs[0], n, k);
      if m > 0 {
        ReachUnfold(start, recs, m);
        if m < |recs| { ReachUnfold(start, recs, m + 1); }
        KeptPlaced(e, recs[1..], m - 1, n, k);
        assert recs[..m][1..] == recs[1..][..m - 1] && recs[..m][0] == recs[0];
        var ps := Placed(start, recs[..m]);
        assert ps[1..] == Placed(e, recs[1..][..m - 1]);
      } else {
        ReachUnfold(start, recs, 1);
        assert Reach(e, recs[1..], 0) == e by { ReachNone(e, recs[1..]); }
        LayoutLinked(e, recs[1..]);
        EndsGrow(e, Layout(e, recs[1..]), n, k);
        GoneKeepsNone(e, recs[1..], SeekFate(n, k));
        assert recs[..0] == [];
      }
    }
  }

  lemma ReachNone(start: nat, recs: seq<Bytes>)
    ensures Reach(start, recs, 0) == start
  {
    assert recs[..0] == [];
  }

  lemma ReachIsLength(recs: seq<Bytes>, m: nat)
    requires m <= |recs|
    ensures Reach(0, recs, m) == |LogFile(recs[..m])|
  {
    LayoutLinked(0, recs[..m]);
    AppendStores([], Layout(0, recs[..m]));
  }

  /** Where the writer put each record: after the records before it, past any block trailer. */
  lemma {:induction false} PlacedAt(recs: seq<Bytes>, j: nat)
    requires j < |recs|
    ensures Placed(0, recs)[j] == Record(recs[j], HeaderAt(|LogFile(recs[..j])|))
  {
    PlacedFrom(0, recs, j);
    ReachIsLength(recs, j);
  }

  lemma {:induction false} PlacedFrom(start: nat, recs: seq<Bytes>, j: nat)
    requires j < |recs|
    ensures Placed(start, recs)[j] == Record(recs[j], HeaderAt(Reach(start, recs, j)))
    decreases j
  {
    hide Fragments, HeaderAt, Reach;
    if j == 0 {
      ReachNone(start, recs);
    } else {
      ReachUnfold(start, recs, j);
      PlacedFrom(EndOf(start, Fragments(start, recs[0], true)), recs[1..], j - 1);
    }
  }

  /** A log that was cut off after `n` bytes, of which `m` records lie wholly before the cut,
      read from offset `k`. */
  lemma ReadsPlaced(recs: seq<Bytes>, m: nat, n: nat, cfg: Config)
    requires n <= |LogFile(recs)| && WhollyIn(recs, m, n)
    ensures Contents(LogFile(recs)[..n], cfg).records == From(Placed(0, recs[..m]), cfg.initial)
  {
    hide LogFile, Contents, SeekFate;
    ReachIsLength(recs, m);
    if m < |recs| { ReachIsLength(recs, m + 1); }
    ReadBack(recs, n, cfg);
    KeptPlaced(0, recs, m, n, cfg.initial);
  }

  lemma {:induction false} FromZero(ps: seq<Record>)
    ensures From(ps, 0) == ps
    decreases |ps|
  {
    if ps != [] { FromZero(ps[1..]); }
  }

  /** A crash loses the record that was being written and nothing else, and is no corruption. */
  lemma CrashSafety(recs: seq<Bytes>, m: nat, n: nat, checksum: bool)
    requires n <= |LogFile(recs)| && WhollyIn(recs, m, n)
    ensures Contents(LogFile(recs)[..n], Config(checksum, 0)).records == Placed(0, recs[..m])
    ensures Contents(LogFile(recs)[..n], Config(checksum, 0)).reports == []
  {
    hide LogFile, Contents, Layout, Placed;
    ReadsPlaced(recs, m, n, Config(checksum, 0));
    FromZero(Placed(0, recs[..m]));
    SeekReports(recs, n, Config(checksum, 0));
  }

  /** What was written is read back: the same records in the same order, and no report. */
  lemma RoundTrip(recs: seq<Bytes>, checksum: bool)
    ensures var s := Contents(LogFile(recs), Config(checksum, 0));
            && s.reports == [] && |s.records| == |recs|
            && forall j :: 0 <= j < |recs| ==> s.records[j] == Record(recs[j], HeaderAt(|LogFile(recs[..j])|))
  {
    hide Contents, Layout, Placed;
    var f := LogFile(recs);
    assert recs[..|recs|] == recs && f[..|f|] == f;
    hide LogFile, HeaderAt;
    CrashSafety(recs, |recs|, |f|, checksum);
    forall j | 0 <= j < |recs| ensures Placed(0, recs)[j] == Record(recs[j], HeaderAt(|LogFile(recs[..j])|)) {
      PlacedAt(recs, j);
    }
  }

  /** A reader opened at `k` returns the records whose first physical record starts at or after
      `k`, each with that offset. */
  lemma Seek(recs: seq<Bytes>, cfg: Config)
    ensures Contents(LogFile(recs), cfg).records == From(Placed(0, recs), cfg.initial)
  {
    hide Contents, Layout, Placed;
    var f := LogFile(recs);
    assert recs[..|recs|] == recs && f[..|f|] == f;
    ReadsPlaced(recs, |recs|, |f|, cfg);
  }
}
