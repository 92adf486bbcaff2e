/** Statements in their documented form, and a session with a tablet. */
module TabletSession {
  import opened Coding
  import opened Disk
  import opened Statements
  import opened Tables
  import opened TableTheorems
  import opened Tablets

  // ---------- create ----------

  /** "name,type,isKey": the name comes first, and only "true" makes a key. */
  lemma FieldParsed(name: Bytes, kind: Bytes, isKey: Bytes)
    requires COMMA !in name && COMMA !in kind && COMMA !in isKey
    ensures ParseField(Join([name, kind, isKey], COMMA)) == Some(Field(name, isKey == [116, 114, 117, 101]))
  {
    var parts := [name, kind, isKey];
    JoinNotEmpty(parts, COMMA);
    hide Tokens, Join;
    TokensJoin(parts, COMMA);
  }

  /** A text with fewer than three parts makes the statement throw. */
  lemma FieldBroken(parts: seq<Bytes>)
    requires 0 < |parts| < 3 && forall p :: p in parts ==> COMMA !in p
    ensures ParseField(Join(parts, COMMA)).None?
  {
    hide Tokens, Join;
    TokensJoin(parts, COMMA);
  }

  lemma {:induction false} SchemaParsed(schema: seq<Field>, texts: seq<Bytes>)
    requires |texts| == |schema|
    requires forall i :: 0 <= i < |schema| ==> ParseField(texts[i]) == Some(schema[i])
    ensures ParseSchema(texts) == Some(schema)
    decreases |texts|
  {
    hide ParseField;
    if texts != [] {
      var n := |texts| - 1;
      SchemaParsed(schema[..n], texts[..n]);
      assert schema == schema[..n] + [schema[n]];
    }
  }

  /** "create table column column" */
  lemma CreateOutcomes(verb: Bytes, name: Bytes, texts: seq<Bytes>, names: set<Bytes>)
    requires SPACE !in verb && SPACE !in name && forall t :: t in texts ==> SPACE !in t
    ensures var statement := Join([verb, name] + texts, SPACE);
            && SplitString(statement, SPACE) == [verb, name] + texts
            && CreateOutcome(names, statement)
               == if name in names then Failed
                  else if exists i :: 0 <= i < |texts| && ParseField(texts[i]).None? then Throws else Done
  {
    var parts := [verb, name] + texts;
    JoinNotEmpty(parts, SPACE);
    hide Tokens, Join, ParseField;
    TokensJoin(parts, SPACE);
    assert parts[2..] == texts;
    SchemaBroken(texts);
  }

  lemma {:induction false} SchemaBroken(texts: seq<Bytes>)
    ensures ParseSchema(texts).None? <==> exists i :: 0 <= i < |texts| && ParseField(texts[i]).None?
    decreases |texts|
  {
    hide ParseField;
    if texts != [] {
      var n := |texts| - 1;
      SchemaBroken(texts[..n]);
      assert forall i :: 0 <= i < n ==> texts[..n][i] == texts[i];
    }
  }

  // ---------- put ----------

  /** What a tablet reports for a put statement: failure for an unknown table, an exception if a
      column is missing, and otherwise success, also when the timestamp is no number. */
  lemma PutResults(views: Views, verb: Bytes, name: Bytes, keys: seq<Bytes>, values: seq<Bytes>, j: nat)
    requires Legal(verb, name, keys, values)
    requires name in views ==> FirstColumn(keys, views[name].tsName, j)
    ensures PutResult(views, PutText(verb, name, keys, values))
            == if name !in views then Failed
               else if j >= |values| then Throws
               else if ParseU64(values[j]).None? || HasValues(views[name].schema, keys, values) then Done else Throws
  {
    hide PutText, Legal, FirstColumn, ParseU64, HasValues, PutOutcome, KeyView;
    PutFields(verb, name, keys, values);
    if name in views { PutOutcomes(verb, name, keys, values, views[name].tsName, j, views[name].schema); }
  }

  lemma PutFields(verb: Bytes, name: Bytes, keys: seq<Bytes>, values: seq<Bytes>)
    requires Legal(verb, name, keys, values)
    ensures SplitString(PutText(verb, name, keys, values), SPACE)
            == [verb, name, Join(keys, COMMA), Join(values, COMMA)]
  {
    hide PutText, Legal;
    FirstAtIs(keys, []);
    PutParsed(verb, name, keys, values, [], FirstAt(keys, []));
  }

  // ---------- a session ----------

  /** "get table key value timestamp" */
  function GetText(verb: Bytes, name: Bytes, key: Bytes, value: Bytes, ts: nat): Bytes {
    Join([verb, name, key, value, DecimalText(ts)], SPACE)
  }

  lemma {:induction false} NoSpaceInDecimal(n: nat)
    ensures SPACE !in DecimalText(n)
    decreases n
  {
    DecimalOfText(n);
    hide DecimalText;
    forall c | c in DecimalText(n) ensures c != SPACE {
      var i :| 0 <= i < |DecimalText(n)| && DecimalText(n)[i] == c;
      assert IsDigit(DecimalText(n)[i]);
    }
  }

  lemma GetFields(verb: Bytes, name: Bytes, key: Bytes, value: Bytes, ts: nat)
    requires SPACE !in verb && SPACE !in name && SPACE !in key && SPACE !in value && ts < TWO64
    ensures SplitString(GetText(verb, name, key, value, ts), SPACE) == [verb, name, key, value, DecimalText(ts)]
    ensures ParseU64(DecimalText(ts)) == Some(ts)
  {
    hide Tokens, Join, DecimalText, ParseU64;
    var parts := [verb, name, key, value, DecimalText(ts)];
    NoSpaceInDecimal(ts);
    ParsesBack(ts);
    JoinNotEmpty(parts, SPACE);
    assert forall p :: p in parts ==> p == verb || p == name || p == key || p == value || p == DecimalText(ts);
    TokensJoin(parts, SPACE);
  }

  /** What the answer is when the table holds one statement and a reader sees it. */
  lemma AnswerIs(views: Views, statement: Bytes, get: Bytes, verb: Bytes, name: Bytes, key: Bytes, value: Bytes,
                 ts: nat, r: Outcome, message: Bytes)
    requires SplitString(get, SPACE) == [verb, name, key, value, DecimalText(ts)]
    requires ParseU64(DecimalText(ts)) == Some(ts)
    requires name in views && views[name].log == [statement] && AllSeen([statement], views[name].visible)
    requires Field(key, true) in views[name].schema && Carries(statement, views[name].tsName, key, ts, value)
    requires Answers(views, get, r, message)
    ensures r == Done && message == CStr(statement)
  {
    hide SplitString, ParseU64, DecimalText, Carries, CStr, Readable;
    var v := views[name];
    assert Earliest(v.log, v.tsName, key, ts, value, 0);
    assert Readable(v.log, v.visible, 0);
  }

  /** The first statement of a new table is put, and asked for by any of its indexed columns: the
      answer is the statement, up to its first zero byte. */
  method PutAndGet(tablet: Tablet, verb: Bytes, name: Bytes, keys: seq<Bytes>, values: seq<Bytes>, ghost j: nat,
                   ts: nat, i: nat, getVerb: Bytes)
    returns (put: Outcome, got: Outcome, message: Bytes)
    requires tablet.Valid() && name in tablet.Contents() && tablet.Contents()[name].log == []
    requires Legal(verb, name, keys, values) && ts < TWO64 && SPACE !in getVerb
    requires Fits([PutText(verb, name, keys, values)])
    requires j < |keys| && j < |values| && values[j] == DecimalText(ts)
    requires keys[j] == tablet.Contents()[name].tsName && keys[j] !in keys[..j]
    requires i < |keys| && i < |values| && Field(keys[i], true) in tablet.Contents()[name].schema
    modifies tablet, tablet.owner.Keys
    ensures tablet.Valid() && got == Done
    ensures message == CStr(PutText(verb, name, keys, values))
    ensures put == Done <==> HasValues(old(tablet.Contents())[name].schema, keys, values)
  {
    hide TablesOk, ViewsOf, PutText, GetText, Legal, Fits, DecimalText, PutResult, TookPut, Answers, HasValues, Carries;
    hide ParseU64, CStr, GetResult, SplitString, Table.Valid;
    var statement, get := PutText(verb, name, keys, values), GetText(getVerb, name, keys[i], values[i], ts);
    ghost var views := tablet.Contents();
    LogIsView(tablet, name);
    PutFields(verb, name, keys, values);
    assert NameIn(statement) == name && [] + [statement] == [statement];
    put := tablet.Put(statement);
    ghost var views' := tablet.Contents();
    got, message := tablet.Get(get);
    Conclude(views, views', verb, name, keys, values, j, ts, i, getVerb, put, got, message);
  }

  lemma LogIsView(tablet: Tablet, name: Bytes)
    requires tablet.Valid() && name in tablet.Contents()
    ensures name in tablet.tables && tablet.tables[name].log == tablet.Contents()[name].log
  {
    hide Table.Valid;
    TableOf(tablet.owner, tablet.tables, name);
  }

  lemma Conclude(views: Views, views': Views, verb: Bytes, name: Bytes, keys: seq<Bytes>, values: seq<Bytes>, j: nat,
                 ts: nat, i: nat, getVerb: Bytes, put: Outcome, got: Outcome, message: Bytes)
    requires name in views && views[name].log == []
    requires Legal(verb, name, keys, values) && ts < TWO64 && SPACE !in getVerb
    requires j < |keys| && j < |values| && values[j] == DecimalText(ts)
    requires keys[j] == views[name].tsName && keys[j] !in keys[..j]
    requires i < |keys| && i < |values| && Field(keys[i], true) in views[name].schema
    requires var statement := PutText(verb, name, keys, values);
             && put == PutResult(views, statement)
             && Names(views.Keys, statement) && TookPut(views, views', statement)
    requires Answers(views', GetText(getVerb, name, keys[i], values[i], ts), got, message)
    ensures got == Done && message == CStr(PutText(verb, name, keys, values))
    ensures put == Done <==> HasValues(views[name].schema, keys, values)
  {
    hide PutText, GetText, DecimalText, PutResult, TookPut, Answers, HasValues, Carries, ParseU64, CStr, SplitString;
    var statement, get := PutText(verb, name, keys, values), GetText(getVerb, name, keys[i], values[i], ts);
    PutFields(verb, name, keys, values);
    PutTaken(views, views', statement, name);
    PutCarries(verb, name, keys, values, views[name].tsName, j, ts, keys[i], ts, values[i]);
    assert keys[i] in keys && values[i] in values && SPACE !in name;
    GetFields(getVerb, name, keys[i], values[i], ts);
    hide Legal;
    AnswerIs(views', statement, get, getVerb, name, keys[i], values[i], ts, got, message);
    PutResults(views, verb, name, keys, values, j);
  }

  lemma PutTaken(views: Views, views': Views, statement: Bytes, name: Bytes)
    requires Names(views.Keys, statement) && NameIn(statement) == name && TookPut(views, views', statement)
    requires views[name].log == []
    ensures name in views' && views'[name].log == [statement] && AllSeen([statement], views'[name].visible)
    ensures views'[name].schema == views[name].schema && views'[name].tsName == views[name].tsName
  {
    hide SplitString, AllSeen;
    assert [] + [statement] == [statement];
  }
}
