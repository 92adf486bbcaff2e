/** What tables promise, in terms of the list of statements alone. */
module TableTheorems {
  import opened Coding
  import opened Disk
  import opened Segments
  import opened Statements
  import opened Tables

  /** A name has an index just when the schema declares it a key. */
  lemma {:induction false} Indexed(schema: seq<Field>, key: Bytes)
    ensures key in KeyView(schema) <==> Field(key, true) in schema
    decreases |schema|
  {
    if schema != [] {
      var n := |schema| - 1;
      Indexed(schema[..n], key);
      assert schema == schema[..n] + [schema[n]];
    }
  }

  predicate Carried(log: seq<Bytes>, tsName: Bytes, key: Bytes, ts: nat, value: Bytes) {
    exists i :: 0 <= i < |log| && Carries(log[i], tsName, key, ts, value)
  }

  /** A get statement gets the first statement with its key, value and timestamp, as soon as a
      reader of the file sees it, whatever is cached; and it gets nothing else. */
  lemma GetIsEarliest(schema: seq<Field>, tsName: Bytes, log: seq<Bytes>, visible: nat, statement: Bytes,
                      key: Bytes, value: Bytes, ts: nat, o: nat)
    requires |SplitString(statement, SPACE)| >= 5
    requires key == SplitString(statement, SPACE)[2] && value == SplitString(statement, SPACE)[3]
    requires match ParseU64(SplitString(statement, SPACE)[4]) case None => ts == 0 case Some(t) => ts == t
    ensures var r := Answer(IndexLog(KeyView(schema), tsName, log), log, visible, statement);
            && (Field(key, true) in schema && Earliest(log, tsName, key, ts, value, o)
                ==> r == if Readable(log, visible, o) then Found(CStr(log[o])) else Missing)
            && (Field(key, true) !in schema || !Carried(log, tsName, key, ts, value) ==> r == Missing)
  {
    hide SplitString, ParseU64, Carries, Holds, Lookup, IndexLog;
    Indexed(schema, key);
    KeysAreEmpty(schema);
    FirstWriteWins(KeyView(schema), tsName, log, key, ts, value);
  }

  /** After Sync every statement can be read. */
  lemma SyncedIsReadable(log: seq<Bytes>, o: nat)
    requires o < |log|
    ensures Readable(log, |FileOf(log)|, o)
  {
    hide FileOf, Start;
    FileLength(log);
    StartGrows(log, o + 1, |log|);
  }

  predicate IsText(s: Bytes) { 0 !in s }

  /** GetBatchData gives back the statements of a range just when none of them holds a zero byte. */
  lemma RangeIsKept(log: seq<Bytes>, start: nat, end: nat)
    requires start <= end <= |log|
    ensures Texts(log, start, end - start) == log[start..end] <==> forall i :: start <= i < end ==> IsText(log[i])
  {
    var texts := Texts(log, start, end - start);
    forall i | start <= i < end ensures texts[i - start] == log[start..end][i - start] <==> IsText(log[i]) {
      CStrKeeps(log[i]);
    }
    hide Texts, IsText;
    if texts == log[start..end] {
      forall i | start <= i < end ensures IsText(log[i]) { assert texts[i - start] == log[start..end][i - start]; }
    }
  }

  /** GetBatchData(0, n) gives back the statements just when none holds a zero byte. */
  lemma Replay(log: seq<Bytes>)
    ensures Texts(log, 0, |log|) == log <==> forall i :: 0 <= i < |log| ==> IsText(log[i])
  {
    var copy := Texts(log, 0, |log|);
    forall i | 0 <= i < |log| ensures copy[i] == log[i] <==> IsText(log[i]) {
      CStrKeeps(log[i]);
    }
  }

  /** "insert table key,key,key value,value,value" */
  function PutText(verb: Bytes, name: Bytes, keys: seq<Bytes>, values: seq<Bytes>): Bytes
    requires |keys| > 0 && |values| > 0
  {
    Join([verb, name, Join(keys, COMMA), Join(values, COMMA)], SPACE)
  }

  /** The parts of a statement hold no delimiter, and neither list is a single empty text. */
  ghost predicate Legal(verb: Bytes, name: Bytes, keys: seq<Bytes>, values: seq<Bytes>) {
    && |keys| > 0 && |values| > 0 && Join(keys, COMMA) != [] && Join(values, COMMA) != []
    && (forall s :: s in keys || s in values ==> SPACE !in s && COMMA !in s)
    && SPACE !in verb && SPACE !in name
  }

  lemma {:induction false} FirstColumnIs(keys: seq<Bytes>, name: Bytes, j: nat)
    requires FirstColumn(keys, name, j)
    ensures FirstAt(keys, name) == j
    decreases |keys|
  {
    assert j > 0 ==> keys[..j][0] == keys[0];
    if j > 0 {
      assert forall x :: x in keys[1..][..j - 1] ==> x in keys[..j];
      FirstColumnIs(keys[1..], name, j - 1);
    }
  }

  /** A put statement, parsed: its timestamp stands in the first column with that name. */
  lemma PutParsed(verb: Bytes, name: Bytes, keys: seq<Bytes>, values: seq<Bytes>, tsName: Bytes, j: nat)
    requires Legal(verb, name, keys, values) && FirstColumn(keys, tsName, j)
    ensures SplitString(PutText(verb, name, keys, values), SPACE)
            == [verb, name, Join(keys, COMMA), Join(values, COMMA)]
    ensures ParsePut(PutText(verb, name, keys, values), tsName)
            == if j >= |values| then Broken
               else if ParseU64(values[j]).None? then BadTime else Row(keys, values, ParseU64(values[j]).value)
  {
    hide Tokens, ParseU64, FirstAt, Join;
    var fields := [verb, name, Join(keys, COMMA), Join(values, COMMA)];
    FirstColumnIs(keys, tsName, j);
    JoinFree(keys, COMMA, SPACE);
    JoinFree(values, COMMA, SPACE);
    TokensJoin(keys, COMMA);
    TokensJoin(values, COMMA);
    TokensJoin(fields, SPACE);
    JoinNotEmpty(fields, SPACE);
  }

  /** The columns of a put statement that is written in the documented form. */
  lemma PutColumnsParsed(verb: Bytes, name: Bytes, keys: seq<Bytes>, values: seq<Bytes>, tsName: Bytes, j: nat, ts: nat)
    requires Legal(verb, name, keys, values) && ts < TWO64
    requires j < |keys| && j < |values| && keys[j] == tsName && tsName !in keys[..j] && values[j] == DecimalText(ts)
    ensures ParsePut(PutText(verb, name, keys, values), tsName) == Row(keys, values, ts)
  {
    hide ParsePut, PutText, Legal, ParseU64, DecimalText;
    PutParsed(verb, name, keys, values, tsName, j);
    ParsesBack(ts);
  }

  /** What such a statement carries: each column that has a value, under the timestamp. */
  lemma PutCarries(verb: Bytes, name: Bytes, keys: seq<Bytes>, values: seq<Bytes>, tsName: Bytes, j: nat, ts: nat,
                   key: Bytes, at: nat, value: Bytes)
    requires Legal(verb, name, keys, values) && ts < TWO64
    requires j < |keys| && j < |values| && keys[j] == tsName && tsName !in keys[..j] && values[j] == DecimalText(ts)
    ensures Carries(PutText(verb, name, keys, values), tsName, key, at, value)
       <==> at == ts && exists i :: 0 <= i < |keys| && i < |values| && keys[i] == key && values[i] == value
  {
    hide ParsePut, PutText, Legal, DecimalText;
    PutColumnsParsed(verb, name, keys, values, tsName, j, ts);
    if at == ts && exists i :: 0 <= i < |keys| && i < |values| && keys[i] == key && values[i] == value {
      var i :| 0 <= i < |keys| && i < |values| && keys[i] == key && values[i] == value;
      assert ColumnAt(keys, values, i, key, value);
    }
    if Carries(PutText(verb, name, keys, values), tsName, key, at, value) {
      var i :| 0 <= i < |keys| && ColumnAt(keys, values, i, key, value);
      assert keys[i] == key && values[i] == value;
    }
  }

  /** Every indexed column of the statement has a value. */
  predicate HasValues(schema: seq<Field>, keys: seq<Bytes>, values: seq<Bytes>) {
    forall i :: |values| <= i < |keys| ==> Field(keys[i], true) !in schema
  }

  lemma CompleteIs(schema: seq<Field>, keys: seq<Bytes>, values: seq<Bytes>)
    ensures Complete(KeyView(schema), keys, values) <==> HasValues(schema, keys, values)
  {
    forall key | key in keys ensures key in KeyView(schema) <==> Field(key, true) in schema {
      Indexed(schema, key);
    }
    hide KeyView;
    assert forall i :: 0 <= i < |keys| ==> keys[i] in keys;
  }

  /** When Put succeeds, when it returns false, and when it throws. */
  lemma PutOutcomes(verb: Bytes, name: Bytes, keys: seq<Bytes>, values: seq<Bytes>, tsName: Bytes, j: nat,
                    schema: seq<Field>)
    requires Legal(verb, name, keys, values) && FirstColumn(keys, tsName, j)
    ensures PutOutcome(KeyView(schema), tsName, PutText(verb, name, keys, values))
            == if j >= |values| then PutThrows
               else if ParseU64(values[j]).None? then BadTimestamp
               else if HasValues(schema, keys, values) then Stored else PutThrows
  {
    hide ParsePut, PutText, Legal, ParseU64, KeyView, HasValues, Complete, FirstColumn;
    PutParsed(verb, name, keys, values, tsName, j);
    CompleteIs(schema, keys, values);
  }

  /** Put reports success just when the statement has columns and a timestamp and, with it in the
      log, the index has an entry for the value of every indexed column. */
  lemma StoredIsIndexed(schema: seq<Field>, tsName: Bytes, log: seq<Bytes>, statement: Bytes)
    ensures PutOutcome(KeyView(schema), tsName, statement) == Stored
       <==> var row := ParsePut(statement, tsName);
            row.Row? && forall i :: 0 <= i < |row.keys| && Field(row.keys[i], true) in schema ==>
              i < |row.values|
              && Holds(IndexLog(KeyView(schema), tsName, log + [statement]), row.keys[i], row.ts, row.values[i])
  {
    hide ParsePut, KeyView, IndexLog, Holds, Carries;
    var row := ParsePut(statement, tsName);
    if row.Row? {
      CompleteIs(schema, row.keys, row.values);
      forall i | 0 <= i < |row.keys| && i < |row.values| && Field(row.keys[i], true) in schema
        ensures Holds(IndexLog(KeyView(schema), tsName, log + [statement]), row.keys[i], row.ts, row.values[i])
      {
        LastIsHeld(schema, tsName, log, statement, i);
      }
    }
  }

  lemma LastIsHeld(schema: seq<Field>, tsName: Bytes, log: seq<Bytes>, statement: Bytes, i: nat)
    requires var row := ParsePut(statement, tsName);
             row.Row? && i < |row.keys| && i < |row.values| && Field(row.keys[i], true) in schema
    ensures var row := ParsePut(statement, tsName);
            Holds(IndexLog(KeyView(schema), tsName, log + [statement]), row.keys[i], row.ts, row.values[i])
  {
    hide ParsePut, KeyView, IndexLog, Holds;
    var row := ParsePut(statement, tsName);
    Indexed(schema, row.keys[i]);
    KeysAreEmpty(schema);
    assert ColumnAt(row.keys, row.values, i, row.keys[i], row.values[i]);
    assert Carries((log + [statement])[|log|], tsName, row.keys[i], row.ts, row.values[i]);
    FirstWriteWins(KeyView(schema), tsName, log + [statement], row.keys[i], row.ts, row.values[i]);
  }

  /** "123" and "-1" */
  lemma SomeNumbers()
    ensures ParseU64([49, 50, 51]) == Some(123)
    ensures ParseU64([45, 49]) == Some(0xffff_ffff_ffff_ffff)
  {
    var s: Bytes := [49, 50, 51];
    assert Value(49) == 49 && Value(50) == 50 && Value(51) == 51;
    assert s[..2] == [49, 50] && s[..2][..1] == [49] && s[..2][..1][..0] == [];
    assert Decimal([49]) == 1 && Decimal([49, 50]) == 12 && Decimal(s) == 123;
    var t: Bytes := [45, 49];
    assert t[1..] == [49];
  }

  /** What is no number to lexical_cast: no digits, another byte among them, or 2^64 and more. */
  lemma NotANumber(s: Bytes)
    ensures ParseU64(s).None?
       <==> var digits := if HasSign(s) then s[1..] else s;
            digits == [] || (exists c :: c in digits && !IsDigit(c)) || (AllDigits(digits) && Decimal(digits) >= TWO64)
  {
    var digits := if HasSign(s) then s[1..] else s;
    if !AllDigits(digits) {
      var i :| 0 <= i < |digits| && !IsDigit(digits[i]);
      assert digits[i] in digits;
    }
    hide Decimal, IsDigit;
  }

  lemma JoinNotEmpty(ts: seq<Bytes>, d: bv8)
    requires |ts| > 1
    ensures Join(ts, d) != []
  {
  }

  lemma {:induction false} JoinFree(ts: seq<Bytes>, d: bv8, c: bv8)
    requires |ts| > 0 && c != d && forall t :: t in ts ==> c !in t
    ensures c !in Join(ts, d)
    decreases |ts|
  {
    if |ts| > 1 { JoinFree(ts[1..], d, c); }
  }
}
