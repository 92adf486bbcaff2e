/** Whole sessions of the log's writer and reader, as its tests hold them. */
module LogSession {
  import opened Coding
  import opened LogFormat
  import LogWriter
  import LogParse
  import LogReader
  import LogTheorems
  import LogResume

  /** Writes the records, with a new writer before each one whose index is in `reopen`. */
  method WriteAll(recs: seq<Bytes>, reopen: set<nat>) returns (dest: WritableFile)
    ensures fresh(dest) && dest.contents == LogFile(recs)
  {
    hide LogFile, AppendRecord;
    dest := new WritableFile();
    var writer := new LogWriter.IbdbWriter(dest);
    EmptyLog();
    for i := 0 to |recs|
      invariant writer.Valid() && writer.dest == dest && fresh(dest) && fresh(writer)
      invariant dest.contents == LogFile(recs[..i])
    {
      if i in reopen {
        writer := new LogWriter.IbdbWriter.WithLength(dest, |dest.contents|);
      }
      writer.AddRecord(recs[i]);
      LogFileGrows(recs[..i], recs[i]);
      assert recs[..i + 1] == recs[..i] + [recs[i]];
    }
    assert recs[..|recs|] == recs;
  }

  lemma EmptyLog()
    ensures LogFile([]) == []
  {
  }

  /** Goes on with a file of any contents. */
  method WriteMore(dest: WritableFile, more: seq<Bytes>)
    modifies dest
    ensures dest.contents == Extended(old(dest.contents), more)
  {
    hide Extended, AppendRecord;
    ghost var f := dest.contents;
    var writer := new LogWriter.IbdbWriter.WithLength(dest, |dest.contents|);
    ExtendedGrows(f, [], []);
    for i := 0 to |more|
      invariant writer.Valid() && writer.dest == dest && fresh(writer)
      invariant dest.contents == Extended(f, more[..i])
    {
      writer.AddRecord(more[i]);
      ExtendedGrows(f, more[..i], more[i]);
      assert more[..i + 1] == more[..i] + [more[i]];
    }
    assert more[..|more|] == more;
  }

  /** Calls ReadRecord until it returns false. */
  method ReadAll(data: Bytes, checksum: bool, initialOffset: nat)
    returns (records: seq<LogParse.Record>, reports: seq<LogParse.Report>)
    requires |data| < LogReader.OFFSET_MAX && initialOffset < LogReader.OFFSET_MAX
    ensures records == LogParse.Contents(data, LogParse.Config(checksum, initialOffset)).records
    ensures reports == LogParse.Contents(data, LogParse.Config(checksum, initialOffset)).reports
  {
    hide LogReader.Cursor.InSync;
    var file := new SequentialFile(data);
    var reader := new LogReader.Reader(file, checksum, initialOffset);
    ghost var cfg := LogParse.Config(checksum, initialOffset);
    records := [];
    while true
      invariant reader.Valid() && fresh(reader) && fresh(file) && reader.file == file && file.data == data
      invariant reader.Cfg() == cfg && reader.Positioned() && reader.records == records && reader.StartPos() >= 0
      invariant LogParse.ReadAll(data, cfg, reader.StartPos(), reader.Between()) == LogParse.Contents(data, cfg)
      decreases if reader.StartPos() <= |data| then |data| - reader.StartPos() else 0
    {
      hide LogParse.ReadRecord, LogParse.Contents;
      var found, record := reader.ReadRecord();
      if !found {
        reports := reader.reports;
        return;
      }
      records := records + [LogParse.Record(record, reader.lastRecordOffset)];
    }
  }

  /** Reading gives back what was written, however often the writer was replaced. */
  method WriteAndRead(recs: seq<Bytes>, reopen: set<nat>, checksum: bool)
    returns (records: seq<LogParse.Record>, reports: seq<LogParse.Report>)
    requires |LogFile(recs)| < LogReader.OFFSET_MAX
    ensures reports == [] && |records| == |recs|
    ensures forall j :: 0 <= j < |recs| ==> records[j].data == recs[j]
  {
    hide LogFile, LogParse.Contents, HeaderAt;
    var dest := WriteAll(recs, reopen);
    records, reports := ReadAll(dest.contents, checksum, 0);
    LogTheorems.RoundTrip(recs, checksum);
  }

  /** The writer of `recs` dies after `j` physical records, and another one goes on with the file:
      what is read back are the `m` records that were wholly written and then the new ones. */
  method CrashAndGoOn(recs: seq<Bytes>, j: nat, ghost m: nat, more: seq<Bytes>, checksum: bool)
    returns (records: seq<LogParse.Record>, reports: seq<LogParse.Report>)
    requires j <= |Layout(0, recs)| && LogTheorems.WhollyIn(recs, m, |LogResume.CutAfter(recs, j)|)
    requires |Extended(LogResume.CutAfter(recs, j), more)| < LogReader.OFFSET_MAX
    ensures records == LogTheorems.Placed(0, recs[..m])
                       + LogTheorems.Placed(|LogResume.CutAfter(recs, j)|, more)
    ensures |reports| <= 1
    ensures reports != [] <==> more != [] && LogResume.Unfinished(Layout(0, recs)[..j]) != []
  {
    hide LogFile, LogParse.Contents, Extended, Layout, LogResume.CutAfter, LogTheorems.WhollyIn, LogTheorems.Placed;
    hide LogResume.Unfinished;
    var dest := new WritableFile();
    dest.Append(LogResume.CutAfter(recs, j));
    ghost var f := LogResume.CutAfter(recs, j);
    assert [] + f == f;
    WriteMore(dest, more);
    records, reports := ReadAll(dest.contents, checksum, 0);
    LogResume.Resumed(recs, j, m, more, checksum);
    LogResume.LayoutBegins(|f|, more);
  }
}
