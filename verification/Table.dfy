/** The table of ibdb/src/storage/table.h: an append-only file of statements, a sparse index of
    positions in it, an index of the entries, and a cache of messages. */
module Tables {
  import opened Coding
  import opened Disk
  import opened Segments
  import opened Statements

  /** disk_cache_threshold_ */
  const SYNC_EVERY: nat := 1000

  const LOG_FILE := "00000000.log"

  /** Where the message of an offset starts. */
  datatype Mark = Mark(offset: nat, pos: nat)

  /** insert of a std::map: in order of the offsets, and an offset that is there stays. */
  function InsertMark(marks: seq<Mark>, m: Mark): seq<Mark>
    decreases |marks|
  {
    if marks == [] then [m]
    else
      var last := marks[|marks| - 1];
      if last.offset < m.offset then marks + [m]
      else if last.offset == m.offset then marks
      else InsertMark(marks[..|marks| - 1], m) + [last]
  }

  predicate Multiple(n: nat, d: nat)
    requires d > 0
  {
    n % d == 0
  }

  predicate Follows(marks: seq<Mark>, k: nat, step: nat)
    requires 0 < k < |marks|
  {
    marks[k].offset == marks[k - 1].offset + step
  }

  /** There is a mark for every multiple of `step` below the length of the log. */
  ghost predicate Sparse(marks: seq<Mark>, log: seq<Bytes>, step: nat)
    requires step > 0
  {
    && (log == [] <==> marks == [])
    && (marks != [] ==> marks[0].offset == 0
                        && marks[|marks| - 1].offset < |log| <= marks[|marks| - 1].offset + step)
    && (forall k :: 0 < k < |marks| ==> Follows(marks, k, step))
    && (forall k :: 0 <= k < |marks| ==> marks[k].offset < |log| && marks[k].pos == Start(log, marks[k].offset))
    && (forall k :: 0 <= k < |marks| ==> Multiple(marks[k].offset, step))
  }

  lemma AtLeastOnce(d: int, x: int)
    requires d > 0 && x >= 1
    ensures d * x >= d && d * -x <= -d
  {
  }

  lemma Remainder(n: nat, q: nat, r: nat, d: nat)
    requires d > 0 && r < d && n == d * q + r
    ensures n % d == r
  {
    var x := q - n / d;
    assert d * x == d * q - d * (n / d) == n % d - r;
    if x >= 1 { AtLeastOnce(d, x); }
    if x <= -1 { AtLeastOnce(d, -x); }
  }

  lemma NextMultiple(a: nat, n: nat, d: nat)
    requires d > 0 && Multiple(a, d) && a < n <= a + d
    ensures Multiple(n, d) <==> n == a + d
  {
    var q := a / d;
    if n == a + d {
      assert n == d * (q + 1) + 0;
      Remainder(n, q + 1, 0, d);
    } else {
      assert n == d * q + (n - a);
      Remainder(n, q, n - a, d);
    }
  }

  function MarksAfter(marks: seq<Mark>, log: seq<Bytes>, step: nat): seq<Mark>
    requires step > 0
  {
    if Multiple(|log|, step) then InsertMark(marks, Mark(|log|, Start(log, |log|))) else marks
  }

  lemma MarksStay(marks: seq<Mark>, log: seq<Bytes>, m: Bytes)
    requires forall k :: 0 <= k < |marks| ==> marks[k].offset < |log| && marks[k].pos == Start(log, marks[k].offset)
    ensures forall k :: 0 <= k < |marks|
              ==> marks[k].offset < |log + [m]| && marks[k].pos == Start(log + [m], marks[k].offset)
  {
    forall k | 0 <= k < |marks| ensures marks[k].pos == Start(log + [m], marks[k].offset) {
      StartOfPrefix(log, [m], marks[k].offset);
    }
  }

  lemma ZeroIsMultiple(d: nat)
    requires d > 0
    ensures Multiple(0, d)
  {
  }

  lemma SparseSame(marks: seq<Mark>, log: seq<Bytes>, m: Bytes, step: nat)
    requires step > 0 && Sparse(marks, log, step) && marks != [] && |log| < marks[|marks| - 1].offset + step
    ensures Sparse(marks, log + [m], step)
  {
    MarksStay(marks, log, m);
    hide Start, Multiple;
  }

  lemma SparseMore(marks: seq<Mark>, log: seq<Bytes>, m: Bytes, step: nat)
    requires step > 0 && Sparse(marks, log, step) && Multiple(|log|, step)
    requires marks != [] ==> |log| == marks[|marks| - 1].offset + step
    ensures Sparse(marks + [Mark(|log|, Start(log, |log|))], log + [m], step)
  {
    hide Start, Multiple, Follows;
    StartOfPrefix(log, [m], |log|);
    MarksStay(marks, log, m);
    var marks' := marks + [Mark(|log|, Start(log, |log|))];
    forall k | 0 < k < |marks'| ensures Follows(marks', k, step) {
      FollowsMore(marks, Mark(|log|, Start(log, |log|)), k, step);
    }
  }

  lemma FollowsMore(marks: seq<Mark>, m: Mark, k: nat, step: nat)
    requires 0 < k <= |marks|
    requires if k < |marks| then Follows(marks, k, step) else m.offset == marks[|marks| - 1].offset + step
    ensures Follows(marks + [m], k, step)
  {
  }

  lemma SparseGrows(marks: seq<Mark>, log: seq<Bytes>, m: Bytes, step: nat)
    requires step > 0 && Sparse(marks, log, step)
    ensures Sparse(MarksAfter(marks, log, step), log + [m], step)
  {
    ZeroIsMultiple(step);
    if marks != [] { NextMultiple(marks[|marks| - 1].offset, |log|, step); }
    if Multiple(|log|, step) {
      SparseMore(marks, log, m, step);
    } else {
      SparseSame(marks, log, m, step);
    }
    hide Sparse, Multiple, Start;
  }

  /** The texts of `count` messages from `start` on, as C strings hold them. */
  function Texts(log: seq<Bytes>, start: nat, count: nat): (r: seq<Bytes>)
    ensures |r| == count
  {
    seq(count, i requires 0 <= i < count => if start + i < |log| then CStr(log[start + i]) else [])
  }

  datatype PutStatus = Stored | BadTimestamp | PutThrows
  datatype GetStatus = Found(message: Bytes) | Missing | GetThrows

  /** Of the search for one message, and of reading a range of them. An assertion of the program
      fails when the file does not open. */
  datatype Search = Hit(message: Bytes) | NoHit | Aborts
  datatype BatchStatus = AllRead | CutShort | Aborted

  datatype Field = Field(name: Bytes, isKey: bool)

  /** The keys of a schema, without entries. */
  function KeyView(schema: seq<Field>): View {
    if schema == [] then map[]
    else
      var rest, last := KeyView(schema[..|schema| - 1]), schema[|schema| - 1];
      if last.isKey then rest[last.name := map[]] else rest
  }

  /** The message of offset `o` is wholly visible. */
  predicate Readable(log: seq<Bytes>, visible: nat, o: nat) {
    o < |log| && Start(log, o + 1) <= visible
  }

  /** The part of Put that reads the statement; every at() out of range throws. */
  method ReadColumns(statement: Bytes, tsName: Bytes) returns (row: Row)
    ensures row == ParsePut(statement, tsName)
  {
    hide SplitString, ParseU64;
    var result := SplitString(statement, SPACE);
    if |result| < 3 {
      return Broken;
    }
    var keyResult := SplitString(result[2], COMMA);
    var pos := 0;
    while pos < |keyResult|
      invariant pos <= |keyResult|
      invariant pos + FirstAt(keyResult[pos..], tsName) == FirstAt(keyResult, tsName)
    {
      if tsName == keyResult[pos] {
        break;
      }
      pos := pos + 1;
    }
    if |result| < 4 {
      return Broken;
    }
    var valueResult := SplitString(result[3], COMMA);
    if pos >= |valueResult| {
      return Broken;
    }
    var timestamp := ParseU64(valueResult[pos]);
    if timestamp == None {
      return BadTime;
    }
    return Row(keyResult, valueResult, timestamp.value);
  }

  /** Puts the columns of a row into the index; `at(i)` throws for a key without a value. */
  method PutColumns(segment: Segment, keys: seq<Bytes>, values: seq<Bytes>, ts: nat, offset: nat)
    returns (complete: bool)
    requires segment.Valid()
    modifies segment, segment.places.Keys
    ensures segment.Valid() && segment.Contents() == IndexColumns(old(segment.Contents()), keys, values, ts, offset, 0)
    ensures complete <==> Complete(old(segment.Contents()), keys, values)
    ensures fresh(segment.places.Keys - old(segment.places.Keys))
  {
    hide KeysOk, TopOk, ViewOf, Recorded;
    ghost var v := segment.Contents();
    var i := 0;
    while i < |keys|
      invariant 0 <= i <= |keys| && segment.Valid() && segment.Contents().Keys == v.Keys
      invariant IndexColumns(segment.Contents(), keys, values, ts, offset, i)
                == IndexColumns(v, keys, values, ts, offset, 0)
      invariant forall j :: |values| <= j < i ==> keys[j] !in v
      invariant fresh(segment.places.Keys - old(segment.places.Keys))
    {
      RecordedKeys(segment.Contents(), keys[i], ts, if i < |values| then values[i] else [], offset);
      var contained := segment.Contains(keys[i]);
      if contained {
        if i >= |values| {
          return false;
        }
        var added := segment.Put(keys[i], ts, values[i], offset);
      }
      i := i + 1;
    }
    complete := true;
  }

  lemma RecordedKeys(v: View, key: Bytes, ts: nat, value: Bytes, offset: nat)
    ensures Recorded(v, key, ts, value, offset).Keys == v.Keys
  {
  }

  /** What Put reports. */
  function PutOutcome(v: View, tsName: Bytes, statement: Bytes): PutStatus {
    match ParsePut(statement, tsName)
    case Broken => PutThrows
    case BadTime => BadTimestamp
    case Row(keys, values, _) => if Complete(v, keys, values) then Stored else PutThrows
  }

  /** Everything but the index of the entries, as values. */
  datatype State = State(contents: Bytes, visible: nat, currentPos: nat, currentOffset: nat,
                         marks: map<string, seq<Mark>>, cache: map<nat, Bytes>) {
    function LogMarks(): seq<Mark> { if LOG_FILE in marks then marks[LOG_FILE] else [] }
  }

  ghost predicate OnDisk(s: State, log: seq<Bytes>, step: nat) {
    && step > 0 && s.visible <= |s.contents| && s.contents == FileOf(log) && Fits(log)
    && s.currentOffset == |log| && s.currentPos == U32(Start(log, |log|))
    && s.marks.Keys == (if log == [] then {} else {LOG_FILE}) && Sparse(s.LogMarks(), log, step)
    && Cached(s.cache, log, s.visible)
  }

  ghost predicate Cached(cache: map<nat, Bytes>, log: seq<Bytes>, visible: nat) {
    forall o :: o in cache ==> Readable(log, visible, o) && cache[o] == CStr(log[o])
  }

  lemma CachedLonger(cache: map<nat, Bytes>, log: seq<Bytes>, visible: nat, m: Bytes, visible': nat)
    requires Cached(cache, log, visible) && visible <= visible'
    ensures Cached(cache, log + [m], visible')
  {
    forall o | o in cache ensures Readable(log + [m], visible', o) && cache[o] == CStr((log + [m])[o]) {
      StartOfPrefix(log, [m], o + 1);
    }
  }

  /** Message starts below 2^32 keep every variable of the format exact. */
  lemma FitsBefore(log: seq<Bytes>, m: Bytes)
    requires Fits(log + [m])
    ensures Fits(log)
  {
    forall i | 0 <= i < |log| ensures Start(log, i) < TWO32 && |log[i]| < MAX_SIZE {
      StartOfPrefix(log, [m], i);
      assert (log + [m])[i] == log[i];
    }
  }

  lemma StartsBelow(log: seq<Bytes>, m: Bytes)
    requires Fits(log + [m])
    ensures |log| <= Start(log, |log|) < TWO32
    ensures Start(log + [m], |log| + 1) == Start(log, |log|) + PREFIX + |m|
  {
    var n, all := |log|, log + [m];
    StartOfPrefix(log, [m], n);
    StartGrows(log, 0, n);
    assert all[n] == m;
    assert Start(all, n) < TWO32;
  }

  lemma NothingWraps(log: seq<Bytes>, m: Bytes)
    requires Fits(log + [m])
    ensures U32(Start(log, |log|)) == Start(log, |log|) < TWO32 && U64(|log| + 1) == |log| + 1
    ensures Start(log + [m], |log| + 1) == Start(log, |log|) + PREFIX + |m|
  {
    StartsBelow(log, m);
    hide Start, Fits, U32, U64;
    U64Fits(|log| + 1);
    U32Fits(Start(log, |log|));
  }

  /** The state after a statement has been appended. */
  lemma Appended(s: State, log: seq<Bytes>, step: nat, m: Bytes, s': State)
    requires OnDisk(s, log, step) && Fits(log + [m])
    requires s'.contents == s.contents + Message(|log|, m) && s.visible <= s'.visible <= |s'.contents|
    requires s'.currentPos == U32(s.currentPos + PREFIX + |m|) && s'.currentOffset == U64(|log| + 1)
    requires s'.cache == s.cache
    requires s'.marks == if Multiple(|log|, step) then s.marks[LOG_FILE := MarksAfter(s.LogMarks(), log, step)]
                         else s.marks
    ensures OnDisk(s', log + [m], step)
  {
    hide Sparse, FileOf, Message, Start, Cached, Fits, MarksAfter;
    FitsBefore(log, m);
    NothingWraps(log, m);
    FileAppend(log, m);
    CachedLonger(s.cache, log, s.visible, m, s'.visible);
    SparseGrows(s.LogMarks(), log, m, step);
    MarksUnchanged(s.LogMarks(), log, step);
  }

  lemma OnDiskFields(s: State, log: seq<Bytes>, step: nat)
    requires OnDisk(s, log, step)
    ensures step > 0 && s.visible <= |s.contents| && s.currentOffset == |log| && s.currentPos == U32(Start(log, |log|))
  {
  }

  lemma MarksUnchanged(marks: seq<Mark>, log: seq<Bytes>, step: nat)
    requires step > 0 && Sparse(marks, log, step)
    ensures !Multiple(|log|, step) ==> MarksAfter(marks, log, step) == marks && log != []
  {
  }

  lemma StartsEmpty(s: State, step: nat)
    requires step > 0 && s.contents == [] && s.visible == s.currentPos == s.currentOffset == 0
    requires s.marks == map[] && s.cache == map[]
    ensures OnDisk(s, [], step)
  {
  }

  lemma {:induction false} KeysAreEmpty(schema: seq<Field>)
    ensures forall k :: k in KeyView(schema) ==> KeyView(schema)[k] == map[]
    decreases |schema|
  {
    if schema != [] { KeysAreEmpty(schema[..|schema| - 1]); }
  }

  /** Makes an index for every key of the schema. */
  method BuildKeys(segment: Segment, schema: seq<Field>)
    requires segment.Valid() && segment.Contents() == map[]
    modifies segment, segment.places.Keys
    ensures segment.Valid() && segment.Contents() == KeyView(schema)
    ensures fresh(segment.places.Keys - old(segment.places.Keys))
  {
    hide KeysOk, TopOk, ViewOf;
    for i := 0 to |schema|
      invariant segment.Valid() && segment.Contents() == KeyView(schema[..i])
      invariant fresh(segment.places.Keys - old(segment.places.Keys))
    {
      assert schema[..i + 1][..i] == schema[..i];
      if schema[i].isKey {
        KeysAreEmpty(schema[..i]);
        var built := segment.BuildKeyIndex(schema[i].name);
      }
    }
    assert schema[..|schema|] == schema;
  }

  /** What a reader of the visible part of the file finds where message `i` starts. */
  lemma AtMessage(s: State, log: seq<Bytes>, step: nat, i: nat)
    requires OnDisk(s, log, step) && i <= |log|
    ensures i == |log| ==> Start(log, i) + 8 > s.visible
    ensures i < |log| ==> i < TWO64 && |log[i]| < MAX_SIZE && Start(log, i) < TWO32
    ensures i < |log| ==> Start(log, i + 1) == Start(log, i) + PREFIX + |log[i]|
    ensures i < |log| ==> Reads(s.contents[..s.visible], Start(log, i), i, log[i])
  {
    hide Sparse, FileOf, Message, Cached, Reads;
    FileLength(log);
    if i < |log| {
      StartGrows(log, 0, i);
      ReadsMessage(log, i, s.contents[..s.visible]);
    }
  }

  lemma NextStart(s: State, log: seq<Bytes>, step: nat, i: nat, offset: nat)
    requires OnDisk(s, log, step) && i < |log| && i < offset && (offset < |log| || Start(log, |log|) < TWO32)
    ensures U32(Start(log, i) + PREFIX + |log[i]|) == Start(log, i + 1)
  {
    hide Sparse, FileOf, Cached, U32, Start;
    StartAfter(log, i, offset);
    hide Fits, OnDisk;
    U32Fits(Start(log, i + 1));
  }

  lemma StartAfter(log: seq<Bytes>, i: nat, offset: nat)
    requires Fits(log) && i < |log| && i < offset && (offset < |log| || Start(log, |log|) < TWO32)
    ensures Start(log, i) + PREFIX + |log[i]| == Start(log, i + 1) < TWO32
  {
    StartGrows(log, i + 1, |log|);
    assert i + 1 < |log| ==> Start(log, i + 1) < TWO32;
  }

  lemma StillAhead(log: seq<Bytes>, visible: nat, i: nat, offset: nat, more: nat)
    requires i <= |log| && i <= offset && Start(log, i) + more > visible
    requires i < offset ==> more <= PREFIX
    requires i == offset && i < |log| ==> more <= PREFIX + |log[i]|
    ensures !Readable(log, visible, offset)
  {
    if offset < |log| {
      StartGrows(log, i, offset);
    }
  }

  lemma NothingReadable(visible: nat, o: nat)
    ensures !Readable([], visible, o)
  {
  }

  /** What is read at the start of a message that fits the format. */
  lemma MessageReads(data: Bytes, pos: nat, offset: nat, m: Bytes)
    requires Reads(data, pos, offset, m) && |m| < MAX_SIZE
    ensures MessageAt(data, pos) == if pos + PREFIX + |m| <= |data| then Whole(m) else CutOff
  {
  }

  lemma ReadableIsThere(log: seq<Bytes>, visible: nat, o: nat)
    requires Readable(log, visible, o)
    ensures o < |log|
  {
  }

  lemma TextsGrow(log: seq<Bytes>, start: nat, count: nat)
    requires start + count < |log|
    ensures Texts(log, start, count + 1) == Texts(log, start, count) + [CStr(log[start + count])]
  {
  }

  lemma CacheHolds(s: State, log: seq<Bytes>, step: nat)
    requires OnDisk(s, log, step)
    ensures Cached(s.cache, log, s.visible)
  {
  }

  lemma CacheOne(s: State, log: seq<Bytes>, step: nat, o: nat)
    requires OnDisk(s, log, step) && Readable(log, s.visible, o)
    ensures OnDisk(s.(cache := s.cache[o := CStr(log[o])]), log, step)
  {
    hide Sparse, FileOf, Fits, CStr;
  }

  /** What a get statement gets. */
  function Answer(v: View, log: seq<Bytes>, visible: nat, statement: Bytes): GetStatus {
    var fields := SplitString(statement, SPACE);
    if |fields| < 5 then GetThrows
    else
      var ts := match ParseU64(fields[4]) case None => 0 case Some(t) => t;
      if Holds(v, fields[2], ts, fields[3]) && Readable(log, visible, Lookup(v, fields[2], ts, fields[3]))
      then Found(CStr(log[Lookup(v, fields[2], ts, fields[3])]))
      else Missing
  }

  lemma IndexGrows(v0: View, tsName: Bytes, log: seq<Bytes>, m: Bytes)
    ensures IndexLog(v0, tsName, log + [m]) == IndexStatement(IndexLog(v0, tsName, log), tsName, m, |log|)
    ensures IndexLog(v0, tsName, log).Keys == v0.Keys
  {
    assert (log + [m])[..|log|] == log;
  }

  /** The index holds offsets of statements only. */
  lemma IndexedIsThere(schema: seq<Field>, tsName: Bytes, log: seq<Bytes>, key: Bytes, ts: nat, value: Bytes)
    ensures var v := IndexLog(KeyView(schema), tsName, log);
            Holds(v, key, ts, value) ==> Lookup(v, key, ts, value) < |log|
  {
    KeysAreEmpty(schema);
    FirstWriteWins(KeyView(schema), tsName, log, key, ts, value);
  }

  class Table {
    const schema: seq<Field>
    /** FLAGS_table_timestamp and FLAGS_log_index_sparse_threshold. */
    const tsName: Bytes
    const step: nat
    const file: LogFile
    const segment: Segment
    var currentOffset: nat
    var offsetPosMap: map<string, seq<Mark>>
    var cache: map<nat, Bytes>
    /** The statements that were put. */
    ghost var log: seq<Bytes>

    ghost function Now(): State
      reads this, file
    {
      State(file.contents, file.visible, file.currentPos, currentOffset, offsetPosMap, cache)
    }

    ghost predicate DiskValid()
      reads this, file
    {
      OnDisk(Now(), log, step)
    }

    ghost predicate Valid()
      reads this, file, segment, segment.places.Keys
    {
      && DiskValid() && segment.Valid()
      && this !in segment.places && file !in segment.places
      && segment.Contents() == IndexLog(KeyView(schema), tsName, log)
    }

    constructor (schema: seq<Field>, tsName: Bytes, step: nat)
      requires step > 0
      ensures Valid() && log == [] && file.visible == 0 && this.schema == schema && this.tsName == tsName
      ensures fresh(file) && fresh(segment) && fresh(segment.places.Keys)
    {
      hide OnDisk, FileOf, KeysOk, TopOk, ViewOf;
      this.schema, this.tsName, this.step := schema, tsName, step;
      file := new LogFile();
      segment := new Segment();
      currentOffset, offsetPosMap, cache, log := 0, map[], map[], [];
      new;
      StartsEmpty(Now(), step);
      assert file !in segment.places && this !in segment.places;
      BuildKeys(segment, schema);
    }

    method PutDisk(statement: Bytes)
      requires DiskValid() && Fits(log + [statement])
      modifies this, file
      ensures DiskValid() && log == old(log) + [statement]
      ensures file.visible >= old(file.visible) && cache == old(cache)
      ensures |old(log)| % SYNC_EVERY == 0 ==> file.visible == |file.contents|
    {
      hide OnDisk, FileOf, Start, Message, Fits, InsertMark;
      NothingWraps(log, statement);
      OnDiskFields(Now(), log, step);
      ghost var s := Now();
      var currentPos := file.currentPos;
      var offset := currentOffset;
      file.Append(offset, statement);
      if offset % SYNC_EVERY == 0 {
        file.Sync();
      }
      if offset % step == 0 {
        if LOG_FILE in offsetPosMap {
          offsetPosMap := offsetPosMap[LOG_FILE := InsertMark(offsetPosMap[LOG_FILE], Mark(offset, currentPos))];
        } else {
          offsetPosMap := offsetPosMap[LOG_FILE := InsertMark([], Mark(offset, currentPos))];
        }
      }
      currentOffset := U64(currentOffset + 1);
      Appended(s, log, step, statement, Now());
      log := log + [statement];
    }

    ghost predicate Near(offset: nat, startOffset: nat, pos: nat)
      reads this
    {
      && step > 0 && Multiple(startOffset, step)
      && startOffset <= offset && startOffset < |log| && pos == Start(log, startOffset)
      && (offset < startOffset + step || |log| <= startOffset + step)
    }

    /** Appends the statement to the file, and then makes what index of it its text allows. */
    method Put(statement: Bytes) returns (status: PutStatus)
      requires Valid() && Fits(log + [statement])
      modifies this, file, segment, segment.places.Keys
      ensures Valid() && log == old(log) + [statement]
      ensures fresh(segment.places.Keys - old(segment.places.Keys))
      ensures file.visible >= old(file.visible) && cache == old(cache)
      ensures |old(log)| % SYNC_EVERY == 0 ==> file.visible == |file.contents|
      ensures status == PutOutcome(KeyView(schema), tsName, statement)
    {
      hide OnDisk, Start, FileOf, KeysOk, ViewOf, TopOk, IndexColumns, ParsePut;
      var offset := currentOffset;
      OnDiskFields(Now(), log, step);
      IndexGrows(KeyView(schema), tsName, log, statement);
      PutDisk(statement);
      var row := ReadColumns(statement, tsName);
      match row {
        case Broken =>
          status := PutThrows;
        case BadTime =>
          status := BadTimestamp;
        case Row(keys, values, ts) =>
          var complete := PutColumns(segment, keys, values, ts, offset);
          status := if complete then Stored else PutThrows;
      }
    }

    /** The last mark that is not behind `offset`. */
    method FindOffsetPosition(offset: nat) returns (startOffset: nat, pos: nat, name: string)
      requires DiskValid()
      ensures name == LOG_FILE <==> log != []
      ensures log != [] ==> Near(offset, startOffset, pos)
    {
      hide FileOf, Fits, Cached;
      startOffset, pos, name := 0, 0, "";
      var findFlags := false;
      var files := offsetPosMap.Keys;
      while files != {}
        invariant files <= offsetPosMap.Keys
        invariant log == [] ==> name == ""
        invariant files == {} && log != [] ==> name == LOG_FILE && Near(offset, startOffset, pos)
        decreases |files|
      {
        var file: string :| file in files;
        name := file;
        var marks := offsetPosMap[name];
        var k := 0;
        while k < |marks|
          invariant 0 <= k <= |marks|
          invariant k > 0 ==> startOffset == marks[k - 1].offset <= offset && pos == marks[k - 1].pos
        {
          if k > 0 { assert Follows(marks, k, step); }
          if marks[k].offset > offset {
            findFlags := true;
            break;
          } else {
            startOffset := marks[k].offset;
            pos := marks[k].pos;
          }
          k := k + 1;
        }
        if findFlags {
          break;
        }
        files := files - {file};
      }
    }

    /** Opens the file, and reads message after message from `start` on until it is at `offset`. */
    method FindMessage(offset: nat, start: nat, startPos: nat, name: string) returns (r: Search, ghost visited: nat)
      requires DiskValid() && (name == LOG_FILE ==> Near(offset, start, startPos))
      requires offset < |log| || Start(log, |log|) < TWO32
      ensures r == if name != LOG_FILE then Aborts
                   else if Readable(log, file.visible, offset) then Hit(log[offset]) else NoHit
      ensures visited <= step
    {
      hide OnDisk, Start, FileOf, OffsetAt, SizeAt, MessageAt;
      ghost var s := Now();
      OnDiskFields(s, log, step);
      visited := 0;
      // There is no other file, and a file that does not open fails an assertion.
      if name != LOG_FILE {
        return Aborts, visited;
      }
      var startOffset, pos := start, startPos;
      while true
        invariant start <= startOffset <= offset && startOffset <= |log| && visited == startOffset - start
        invariant pos == Start(log, startOffset)
        decreases offset - startOffset
      {
        AtMessage(s, log, step, startOffset);
        var ok, messageOffset := file.GetMessageOffset(pos);
        if !ok {
          StillAhead(log, file.visible, startOffset, offset, 8);
          return NoHit, visited;
        }
        visited := visited + 1;
        assert startOffset == messageOffset;
        if offset == messageOffset {
          var message := file.GetMessage(pos);
          MessageReads(file.Data(), pos, offset, log[offset]);
          if !message.Whole? {
            StillAhead(log, file.visible, startOffset, offset, PREFIX + |log[offset]|);
            return NoHit, visited;
          }
          return Hit(message.message), visited;
        }
        // The reader has not gone past the offset, so its early exit is never taken.
        assert messageOffset < offset;
        var messageSize;
        ok, messageSize := file.GetMessageSize(pos);
        if !ok {
          StillAhead(log, file.visible, startOffset, offset, PREFIX);
          return NoHit, visited;
        }
        NextStart(s, log, step, startOffset, offset);
        pos := U32(pos + PREFIX + messageSize);
        startOffset := startOffset + 1;
      }
    }

    method Sync()
      requires Valid()
      modifies file`visible
      ensures Valid() && file.visible == |file.contents|
    {
      hide FileOf, Sparse, KeysOk, ViewOf, TopOk;
      file.Sync();
    }

    /** Appends the messages of [start, end), as far as they can be read. A table without
        statements has no file to read them from. */
    method GetBatchData(start: nat, end: nat, data0: seq<Bytes>) returns (status: BatchStatus, data: seq<Bytes>)
      requires DiskValid()
      requires end <= |log| || Start(log, |log|) < TWO32
      ensures status == Aborted <==> start < end && log == []
      ensures |data| >= |data0| && data == data0 + Texts(log, start, |data| - |data0|)
      ensures data == data0 || start + |data| - |data0| <= end
      ensures status == AllRead <==> end <= start + |data| - |data0|
      ensures forall i :: start <= i < start + |data| - |data0| ==> Readable(log, file.visible, i)
      ensures status != AllRead ==> !Readable(log, file.visible, start + |data| - |data0|)
    {
      hide OnDisk, Start, FileOf, Readable, Texts;
      data := data0;
      assert data0 + Texts(log, start, 0) == data0;
      var i := start;
      while i < end
        invariant start <= i && |data| == |data0| + (i - start) && (i == start || i <= end)
        invariant data == data0 + Texts(log, start, i - start)
        invariant i > start ==> log != []
        invariant forall j :: start <= j < i ==> Readable(log, file.visible, j)
      {
        var startOffset, pos, name := FindOffsetPosition(i);
        ghost var visited;
        var found;
        found, visited := FindMessage(i, startOffset, pos, name);
        if !found.Hit? {
          if log == [] { NothingReadable(file.visible, i); }
          return if found.Aborts? then Aborted else CutShort, data;
        }
        ReadableIsThere(log, file.visible, i);
        TextsGrow(log, start, i - start);
        data := data + [CStr(found.message)];
        i := i + 1;
      }
      status := AllRead;
    }

    /** The message of `offset`, from the cache or from the file. */
    method GetMessage(offset: nat) returns (r: GetStatus)
      requires DiskValid() && offset < |log|
      modifies this`cache
      ensures DiskValid()
      ensures r == if Readable(log, file.visible, offset) then Found(CStr(log[offset])) else Missing
      ensures cache == if r.Found? && offset !in old(cache) then old(cache)[offset := r.message] else old(cache)
    {
      hide OnDisk, Start, FileOf, Readable;
      CacheHolds(Now(), log, step);
      if offset in cache {
        return Found(cache[offset]);
      }
      var startOffset, pos, name := FindOffsetPosition(offset);
      ghost var visited;
      var found;
      found, visited := FindMessage(offset, startOffset, pos, name);
      if !found.Hit? {
        return Missing;
      }
      CacheOne(Now(), log, step, offset);
      cache := cache[offset := CStr(found.message)];
      return Found(CStr(found.message));
    }

    /** The message of the statement that the index has for "get table key value timestamp". */
    method Get(statement: Bytes) returns (r: GetStatus)
      requires Valid()
      modifies this`cache
      ensures Valid() && r == Answer(segment.Contents(), log, file.visible, statement)
    {
      hide OnDisk, Start, FileOf, KeysOk, ViewOf, TopOk, Readable, SplitString, ParseU64, IndexLog, KeyView, CStr;
      var result := SplitString(statement, SPACE);
      if |result| < 5 {
        return GetThrows;
      }
      var timestamp := match ParseU64(result[4]) case None => 0 case Some(t) => t;
      var found, offset := segment.Get(result[2], timestamp, result[3]);
      if !found {
        return Missing;
      }
      IndexedIsThere(schema, tsName, log, result[2], timestamp, result[3]);
      r := GetMessage(offset);
    }
  }
}
