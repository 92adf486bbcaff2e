/** A whole session with tables: a log of statements is copied into a new table. */
module TableSession {
  import opened Coding
  import opened Disk
  import opened Statements
  import opened Tables
  import opened TableTheorems

  /** Puts the statements one after the other and makes them visible. */
  method PutAll(table: Table, statements: seq<Bytes>)
    requires table.Valid() && Fits(table.log + statements)
    modifies table, table.file, table.segment, table.segment.places.Keys
    ensures table.Valid() && table.log == old(table.log) + statements
    ensures table.file.visible == |table.file.contents|
  {
    hide Table.Valid, Fits;
    for i := 0 to |statements|
      invariant table.Valid() && table.log == old(table.log) + statements[..i]
      invariant fresh(table.segment.places.Keys - old(table.segment.places.Keys))
    {
      assert old(table.log) + statements[..i + 1] == table.log + [statements[i]];
      FitsPrefix(old(table.log) + statements[..i + 1], old(table.log) + statements);
      var status := table.Put(statements[i]);
    }
    assert statements[..|statements|] == statements;
    table.Sync();
  }

  /** The last of the statements 0, 1000, 2000 and so on below `n`. */
  function LastSynced(n: nat): int { if n == 0 then -1 else n - 1 - (n - 1) % 1000 }

  lemma SyncedNext(n: nat)
    ensures LastSynced(n + 1) == if n % 1000 == 0 then n else LastSynced(n)
    ensures n - 1000 <= LastSynced(n) < n
  {
  }

  /** A reader sees the statements up to number `n`. */
  ghost predicate SeenTo(log: seq<Bytes>, visible: nat, n: int) {
    forall o: nat :: o <= n ==> Readable(log, visible, o)
  }

  lemma SeenLater(log: seq<Bytes>, m: Bytes, visible: nat, visible': nat, n: int)
    requires SeenTo(log, visible, n) && visible <= visible'
    ensures SeenTo(log + [m], visible', n)
  {
    forall o: nat | o <= n ensures Readable(log + [m], visible', o) {
      assert Readable(log, visible, o);
      StartOfPrefix(log, [m], o + 1);
    }
  }

  lemma SeenMeans(log: seq<Bytes>, visible: nat, n: int)
    requires SeenTo(log, visible, n)
    ensures forall o: nat :: o <= n ==> Readable(log, visible, o)
  {
  }

  lemma SeenNone(visible: nat)
    ensures SeenTo([], visible, LastSynced(0))
  {
  }

  lemma SeenAll(table: Table)
    requires table.Valid() && table.file.visible == |table.file.contents|
    ensures SeenTo(table.log, table.file.visible, |table.log| - 1)
  {
    hide Table.Valid, Readable;
    Facts(table);
    forall o: nat | o <= |table.log| - 1 ensures Readable(table.log, table.file.visible, o) {
      SyncedIsReadable(table.log, o);
    }
  }

  /** Puts the statements into a new table, without a Sync: at no time are more than the last 999 of
      them out of a reader's sight. */
  method PutUnsynced(schema: seq<Field>, tsName: Bytes, step: nat, statements: seq<Bytes>) returns (table: Table)
    requires step > 0 && Fits(statements)
    ensures table.Valid() && fresh(table) && table.log == statements
    ensures forall o: nat :: o <= |statements| - 1000 ==> Readable(statements, table.file.visible, o)
  {
    hide Table.Valid, Fits, Readable, LastSynced, PutOutcome, SeenTo;
    table := new Table(schema, tsName, step);
    SyncedNext(0);
    SeenNone(table.file.visible);
    for i := 0 to |statements|
      invariant table.Valid() && fresh(table) && fresh(table.file) && fresh(table.segment)
      invariant fresh(table.segment.places.Keys) && table.log == statements[..i]
      invariant SeenTo(statements[..i], table.file.visible, LastSynced(i))
    {
      ghost var log, visible := table.log, table.file.visible;
      assert statements[..i + 1] == log + [statements[i]];
      FitsPrefix(statements[..i + 1], statements);
      var status := table.Put(statements[i]);
      SyncedNext(i);
      if i % 1000 == 0 {
        SeenAll(table);
      } else {
        SeenLater(log, statements[i], visible, table.file.visible, LastSynced(i));
      }
    }
    assert statements[..|statements|] == statements;
    SyncedNext(|statements|);
    SeenMeans(statements, table.file.visible, LastSynced(|statements|));
  }

  lemma FitsPrefix(log: seq<Bytes>, all: seq<Bytes>)
    requires log <= all && Fits(all)
    ensures Fits(log)
  {
    forall i | 0 <= i < |log| ensures Start(log, i) < TWO32 && |log[i]| < MAX_SIZE {
      assert all == log + all[|log|..] && all[i] == log[i];
      StartOfPrefix(log, all[|log|..], i);
    }
  }

  lemma Facts(table: Table)
    requires table.Valid()
    ensures table.DiskValid() && table.step > 0 && table.currentOffset == |table.log|
    ensures Fits(table.log) && table.file.contents == FileOf(table.log)
    ensures table.segment.Contents() == IndexLog(KeyView(table.schema), table.tsName, table.log)
  {
    hide FileOf, Fits, Sparse, Cached, IndexLog, KeyView;
  }

  /** A new table of the same schema, filled from a batch of all statements, comes to hold the
      same statements, and answers every get statement as the first table does. */
  method Copy(source: Table) returns (copy: Table)
    requires source.Valid() && source.file.visible == |source.file.contents|
    requires forall i :: 0 <= i < |source.log| ==> IsText(source.log[i])
    ensures copy.Valid() && fresh(copy)
    ensures copy.schema == source.schema && copy.tsName == source.tsName
    ensures copy.log == source.log && copy.file.visible == source.file.visible
    ensures forall statement ::
      Answer(copy.segment.Contents(), copy.log, copy.file.visible, statement)
      == Answer(source.segment.Contents(), source.log, source.file.visible, statement)
  {
    hide Table.Valid, Table.DiskValid, Fits, FileOf, Start, Readable, Texts, IsText, Answer, IndexLog, KeyView;
    Facts(source);
    ghost var log := source.log;
    var status, data := source.GetBatchData(0, source.currentOffset, []);
    if status != AllRead && log != [] { SyncedIsReadable(log, |data|); }
    assert [] + Texts(log, 0, |data|) == Texts(log, 0, |data|);
    Replay(log);
    copy := new Table(source.schema, source.tsName, source.step);
    assert copy.log + data == data;
    PutAll(copy, data);
    Facts(copy);
    Facts(source);
  }
}
