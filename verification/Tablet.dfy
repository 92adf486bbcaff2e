/** Tables by name: ibdb/src/tablet/tablet.h. */
module Tablets {
  import opened Coding
  import opened Disk
  import Segments
  import opened Statements
  import opened Tables
  import opened TableTheorems
  import opened Ownership

  /** "true" */
  const TRUE_TEXT: Bytes := [116, 114, 117, 101]

  /** True, false, and the exception of an at() that is out of range. */
  datatype Outcome = Done | Failed | Throws

  /** "name,type,isKey" */
  function ParseField(text: Bytes): Option<Field> {
    var info := SplitString(text, COMMA);
    if |info| < 3 then None else Some(Field(info[0], info[2] == TRUE_TEXT))
  }

  /** The columns of a create statement. */
  function ParseSchema(texts: seq<Bytes>): Option<seq<Field>> {
    if texts == [] then Some([])
    else
      var n := |texts| - 1;
      var rest, last := ParseSchema(texts[..n]), ParseField(texts[n]);
      if rest.None? || last.None? then None else Some(rest.value + [last.value])
  }

  /** What a table stands for. */
  datatype TableView = TableView(schema: seq<Field>, tsName: Bytes, log: seq<Bytes>, visible: nat)

  type Views = map<Bytes, TableView>

  /** Whether a create statement makes a table. */
  function CreateOutcome(names: set<Bytes>, statement: Bytes): Outcome {
    var result := SplitString(statement, SPACE);
    if |result| < 2 then Throws
    else if result[1] in names then Failed
    else if ParseSchema(result[2..]).None? then Throws
    else Done
  }

  /** The name in a statement for a table that exists. */
  predicate Names(names: set<Bytes>, statement: Bytes) {
    var result := SplitString(statement, SPACE);
    |result| >= 2 && result[1] in names
  }

  function NameIn(statement: Bytes): Bytes
    requires |SplitString(statement, SPACE)| >= 2
  {
    SplitString(statement, SPACE)[1]
  }

  /** A reader sees every statement. */
  predicate AllSeen(log: seq<Bytes>, visible: nat) {
    forall o :: 0 <= o < |log| ==> Readable(log, visible, o)
  }

  /** One table more by a statement, and no other changed. */
  ghost predicate TookPut(views: Views, views': Views, statement: Bytes)
    requires Names(views.Keys, statement)
  {
    var name := NameIn(statement);
    && views'.Keys == views.Keys && views' - {name} == views - {name}
    && views'[name].schema == views[name].schema && views'[name].tsName == views[name].tsName
    && views'[name].log == views[name].log + [statement] && views'[name].visible >= views[name].visible
    && (|views[name].log| % 1000 == 0 ==> AllSeen(views'[name].log, views'[name].visible))
  }

  lemma PutIsTaken(views: Views, views': Views, statement: Bytes, visible: nat)
    requires Names(views.Keys, statement)
    requires var name, v := NameIn(statement), views[NameIn(statement)];
             views' == views[name := TableView(v.schema, v.tsName, v.log + [statement], visible)]
             && visible >= v.visible
             && (|v.log| % 1000 == 0 ==> AllSeen(v.log + [statement], visible))
    ensures TookPut(views, views', statement)
  {
  }

  /** What Put reports. */
  function PutResult(views: Views, statement: Bytes): Outcome {
    if |SplitString(statement, SPACE)| < 2 then Throws
    else if NameIn(statement) !in views then Failed
    else
      var v := views[NameIn(statement)];
      if PutOutcome(KeyView(v.schema), v.tsName, statement) == PutThrows then Throws else Done
  }

  /** What Get answers. Whether the table has the message is not told: without one the text is empty. */
  function GetResult(views: Views, statement: Bytes): (Outcome, Bytes) {
    if |SplitString(statement, SPACE)| < 2 then (Throws, [])
    else if NameIn(statement) !in views then (Failed, [])
    else
      var v := views[NameIn(statement)];
      match Answer(IndexLog(KeyView(v.schema), v.tsName, v.log), v.log, v.visible, statement)
      case GetThrows => (Throws, [])
      case Missing => (Done, [])
      case Found(message) => (Done, message)
  }

  /** The answer to "get table key value timestamp", in terms of the tables' statements: the text of
      the first one that carries the entry, if the key is indexed and a reader sees the statement,
      and otherwise no text. */
  ghost predicate Answers(views: Views, statement: Bytes, r: Outcome, message: Bytes) {
    var fields := SplitString(statement, SPACE);
    if |fields| < 2 then r == Throws && message == []
    else if fields[1] !in views then r == Failed && message == []
    else if |fields| < 5 then r == Throws && message == []
    else
      var v, key, value := views[fields[1]], fields[2], fields[3];
      var ts := match ParseU64(fields[4]) case None => 0 case Some(t) => t;
      && r == Done
      && (forall o: nat :: Earliest(v.log, v.tsName, key, ts, value, o) ==>
            message == if Field(key, true) in v.schema && Readable(v.log, v.visible, o) then CStr(v.log[o]) else [])
      && (!Carried(v.log, v.tsName, key, ts, value) ==> message == [])
  }

  lemma ResultAnswers(views: Views, statement: Bytes)
    ensures Answers(views, statement, GetResult(views, statement).0, GetResult(views, statement).1)
  {
    hide Carries, CStr, IndexLog, KeyView, SplitString, ParseU64, Start;
    var fields := SplitString(statement, SPACE);
    if |fields| >= 5 && fields[1] in views {
      var v, key, value := views[fields[1]], fields[2], fields[3];
      var ts := match ParseU64(fields[4]) case None => 0 case Some(t) => t;
      var message := GetResult(views, statement).1;
      forall o: nat | Earliest(v.log, v.tsName, key, ts, value, o)
        ensures message == if Field(key, true) in v.schema && Readable(v.log, v.visible, o) then CStr(v.log[o]) else []
      {
        GetIsEarliest(v.schema, v.tsName, v.log, v.visible, statement, key, value, ts, o);
      }
      GetIsEarliest(v.schema, v.tsName, v.log, v.visible, statement, key, value, ts, 0);
    }
  }

  /** The loop over the columns of a create statement. */
  method ReadSchema(texts: seq<Bytes>) returns (schema: Option<seq<Field>>)
    ensures schema == ParseSchema(texts)
  {
    var fields := [];
    for i := 0 to |texts|
      invariant ParseSchema(texts[..i]) == Some(fields)
    {
      assert texts[..i + 1][..i] == texts[..i];
      var field := ParseField(texts[i]);
      if field == None {
        BrokenField(texts, i);
        return None;
      }
      fields := fields + [field.value];
    }
    assert texts[..|texts|] == texts;
    schema := Some(fields);
  }

  lemma {:induction false} BrokenField(texts: seq<Bytes>, i: nat)
    requires i < |texts| && ParseField(texts[i]).None?
    ensures ParseSchema(texts).None?
    decreases |texts|
  {
    if i < |texts| - 1 { BrokenField(texts[..|texts| - 1], i); }
  }

  // ---------- which object belongs to which table ----------

  type Owner = map<object, Bytes>

  /** The objects of a table. */
  ghost function Parts(table: Table): set<object>
    reads table.segment
  {
    {table, table.file, table.segment} + table.segment.places.Keys
  }

  ghost predicate TableOk(owner: Owner, name: Bytes, table: Table)
    reads At(owner, name)
  {
    && table in At(owner, name) && table.segment in At(owner, name)
    && Parts(table) <= At(owner, name) && table.Valid()
  }

  ghost function ViewOf(owner: Owner, name: Bytes, table: Table): TableView
    requires TableOk(owner, name, table)
    reads At(owner, name)
  {
    TableView(table.schema, table.tsName, table.log, table.file.visible)
  }

  ghost predicate TablesOk(owner: Owner, tables: map<Bytes, Table>)
    reads owner.Keys
  {
    forall name :: name in tables ==> TableOk(owner, name, tables[name])
  }

  ghost function ViewsOf(owner: Owner, tables: map<Bytes, Table>): Views
    requires TablesOk(owner, tables)
    reads owner.Keys
  {
    map name | name in tables :: ViewOf(owner, name, tables[name])
  }

  lemma TableElsewhere(owner: Owner, objects: set<object>, name: Bytes, other: Bytes, table: Table)
    requires objects !! owner.Keys && TableOk(owner, other, table) && name != other
    ensures TableOk(Placed(owner, objects, name), other, table)
    ensures ViewOf(Placed(owner, objects, name), other, table) == ViewOf(owner, other, table)
  {
    hide Placed, At, Table.Valid;
    PlacedElsewhere(owner, objects, name, other);
  }

  lemma TablesElsewhere(owner: Owner, objects: set<object>, name: Bytes, tables: map<Bytes, Table>)
    requires objects !! owner.Keys && TablesOk(owner, tables) && name !in tables
    ensures TablesOk(Placed(owner, objects, name), tables)
    ensures ViewsOf(Placed(owner, objects, name), tables) == ViewsOf(owner, tables)
  {
    hide Placed, At, TableOk, ViewOf;
    forall other | other in tables
      ensures TableOk(Placed(owner, objects, name), other, tables[other])
      ensures ViewOf(Placed(owner, objects, name), other, tables[other]) == ViewOf(owner, other, tables[other])
    {
      TableElsewhere(owner, objects, name, other, tables[other]);
    }
  }

  lemma OneMoreTable(owner: Owner, tables: map<Bytes, Table>, name: Bytes, table: Table)
    requires TablesOk(owner, tables - {name}) && TableOk(owner, name, table)
    ensures TablesOk(owner, tables[name := table])
    ensures ViewsOf(owner, tables[name := table]) == ViewsOf(owner, tables - {name})[name := ViewOf(owner, name, table)]
  {
    hide TableOk, ViewOf;
    forall other | other in tables && other != name ensures TableOk(owner, other, tables[other]) {
      assert other in tables - {name};
    }
  }

  lemma TableAdded(owner: Owner, tables: map<Bytes, Table>, name: Bytes, table: Table)
    requires TablesOk(owner, tables) && name !in tables && table.Valid() && Parts(table) !! owner.Keys
    ensures var owner' := Placed(owner, Parts(table), name);
            && owner'.Keys == owner.Keys + Parts(table)
            && TablesOk(owner', tables[name := table])
            && ViewsOf(owner', tables[name := table])
               == ViewsOf(owner, tables)[name := TableView(table.schema, table.tsName, table.log, table.file.visible)]
  {
    hide TablesOk, ViewsOf, Placed, Table.Valid;
    var owner' := Placed(owner, Parts(table), name);
    PlacedElsewhere(owner, Parts(table), name, name);
    TablesElsewhere(owner, Parts(table), name, tables);
    assert tables - {name} == tables;
    assert TableOk(owner', name, table);
    OneMoreTable(owner', tables, name, table);
  }

  /** A table that has changed and may have more parts. */
  lemma TableChanged(owner: Owner, added: set<object>, tables: map<Bytes, Table>, name: Bytes, table: Table)
    requires added !! owner.Keys && name in tables && tables[name] == table && TablesOk(owner, tables - {name})
    requires table in At(owner, name) && table.segment in At(owner, name)
    requires table.Valid() && Parts(table) <= At(owner, name) + added
    ensures var owner' := Placed(owner, added, name);
            && owner'.Keys == owner.Keys + added
            && TablesOk(owner', tables)
            && ViewsOf(owner', tables) == ViewsOf(owner, tables - {name})
                 [name := TableView(table.schema, table.tsName, table.log, table.file.visible)]
  {
    hide TablesOk, ViewsOf, Placed, Table.Valid, At, Parts;
    var owner' := Placed(owner, added, name);
    PlacedElsewhere(owner, added, name, name);
    TablesElsewhere(owner, added, name, tables - {name});
    assert TableOk(owner', name, table);
    OneMoreTable(owner', tables, name, table);
    assert tables[name := table] == tables;
  }

  lemma TableOf(owner: Owner, tables: map<Bytes, Table>, name: Bytes)
    requires TablesOk(owner, tables) && name in tables
    ensures var table := tables[name];
            && TableOk(owner, name, table) && table.Valid()
            && table in At(owner, name) && table.segment in At(owner, name)
            && Parts(table) <= At(owner, name)
            && name in ViewsOf(owner, tables)
            && ViewsOf(owner, tables)[name] == TableView(table.schema, table.tsName, table.log, table.file.visible)
  {
    hide Table.Valid, At, Parts;
  }

  lemma DiskIsValid(table: Table)
    requires table.Valid()
    ensures table.DiskValid()
  {
    hide OnDisk;
  }

  lemma AllReadable(table: Table)
    requires table.Valid() && table.file.visible == |table.file.contents|
    ensures AllSeen(table.log, table.file.visible)
  {
    hide FileOf, Readable, Fits, Sparse, Cached;
    forall o | 0 <= o < |table.log| ensures Readable(table.log, table.file.visible, o) {
      SyncedIsReadable(table.log, o);
    }
  }

  lemma ViewReplaced(views: Views, name: Bytes, view: TableView)
    ensures (views - {name})[name := view] == views[name := view]
  {
  }

  /** The tables of a node. */
  class Tablet {
    const tsName: Bytes
    const step: nat
    /** table_map_ and the offsets of table_manifest_map_. */
    var tables: map<Bytes, Table>
    var manifests: map<Bytes, nat>
    ghost var owner: Owner

    ghost predicate Valid()
      reads this, owner.Keys
    {
      && this !in owner && step > 0 && manifests.Keys == tables.Keys
      && TablesOk(owner, tables)
    }

    ghost function Contents(): Views
      requires Valid()
      reads this, owner.Keys
    {
      ViewsOf(owner, tables)
    }

    constructor (tsName: Bytes, step: nat)
      requires step > 0
      ensures Valid() && Contents() == map[] && manifests == map[] && owner == map[]
    {
      this.tsName, this.step := tsName, step;
      tables, manifests, owner := map[], map[], map[];
    }

    /** Writes to the objects of one table do not affect the others. */
    twostate lemma Untouched(name: Bytes)
      requires old(Valid())
      requires forall o :: o in old(owner) && o !in At(old(owner), name) ==> unchanged(o)
      ensures TablesOk(old(owner), old(tables) - {name})
      ensures ViewsOf(old(owner), old(tables) - {name}) == old(Contents()) - {name}
    {
      hide TableOk, ViewOf;
      var all := old(tables);
      assert old(allocated(all));
      forall other | other in all - {name}
        ensures TableOk(old(owner), other, all[other])
        ensures ViewOf(old(owner), other, all[other]) == old(ViewOf(owner, other, all[other]))
      {
        assert old(allocated(all[other])) && old(TableOk(owner, other, all[other]));
        assert forall o :: o in At(old(owner), other) ==> unchanged(o);
      }
    }

    /** Makes a table for a new name. */
    method Create(statement: Bytes) returns (r: Outcome)
      requires Valid()
      modifies this
      ensures Valid() && fresh(owner.Keys - old(owner.Keys))
      ensures r == CreateOutcome(old(tables.Keys), statement)
      ensures r != Done ==> Contents() == old(Contents()) && manifests == old(manifests)
      ensures r == Done ==> var result := SplitString(statement, SPACE);
        && Contents() == old(Contents())[result[1] := TableView(ParseSchema(result[2..]).value, tsName, [], 0)]
        && manifests == old(manifests)[result[1] := 0]
    {
      hide TableOk, ViewOf, TablesOk, ViewsOf, ParseSchema, Table.Valid;
      var result := SplitString(statement, SPACE);
      if |result| < 2 {
        return Throws;
      }
      if result[1] in tables {
        return Failed;
      }
      var schema := ReadSchema(result[2..]);
      if schema == None {
        return Throws;
      }
      var table := new Table(schema.value, tsName, step);
      AddTable(result[1], table);
      r := Done;
    }

    method AddTable(name: Bytes, table: Table)
      requires Valid() && name !in tables && table.Valid()
      requires Parts(table) !! owner.Keys && this !in Parts(table)
      modifies this
      ensures Valid() && owner.Keys == old(owner.Keys) + Parts(table)
      ensures Contents() == old(Contents())[name :=
        TableView(table.schema, table.tsName, table.log, table.file.visible)]
      ensures manifests == old(manifests)[name := 0]
    {
      hide TablesOk, ViewsOf, Placed, Table.Valid;
      TableAdded(owner, tables, name, table);
      ghost var owner' := Placed(owner, Parts(table), name);
      tables := tables[name := table];
      manifests := manifests[name := 0];
      owner := owner';
    }

    method PutInto(name: Bytes, table: Table, statement: Bytes) returns (status: PutStatus)
      requires Valid() && name in tables && tables[name] == table && Fits(table.log + [statement])
      modifies this`owner, owner.Keys
      ensures Valid() && fresh(owner.Keys - old(owner.Keys))
      ensures status == PutOutcome(KeyView(table.schema), table.tsName, statement)
      ensures table.file.visible >= old(table.file.visible)
      ensures |old(table.log)| % 1000 == 0 ==> AllSeen(old(table.log) + [statement], table.file.visible)
      ensures Contents() == old(Contents())[name :=
        TableView(table.schema, table.tsName, old(table.log) + [statement], table.file.visible)]
    {
      hide TableOk, ViewOf, TablesOk, ViewsOf, Placed, Table.Valid, At;
      TableOf(owner, tables, name);
      ghost var parts := Parts(table);
      status := table.Put(statement);
      if |old(table.log)| % 1000 == 0 { AllReadable(table); }
      ghost var added := Parts(table) - parts;
      owner := Placed(owner, added, name);
      Untouched(name);
      TableChanged(old(owner), added, tables, name, table);
      ViewReplaced(old(Contents()), name, TableView(table.schema, table.tsName, table.log, table.file.visible));
    }

    /** Puts the statement into the table that it names, and counts it unless an exception is thrown. */
    method Put(statement: Bytes) returns (r: Outcome)
      requires Valid()
      requires Names(tables.Keys, statement) ==> Fits(tables[NameIn(statement)].log + [statement])
      modifies this`manifests, this`owner, owner.Keys
      ensures Valid() && fresh(owner.Keys - old(owner.Keys))
      ensures r == PutResult(old(Contents()), statement)
      ensures if Names(old(Contents()).Keys, statement) then TookPut(old(Contents()), Contents(), statement)
              else Contents() == old(Contents())
      ensures manifests == if r == Done then old(manifests)[NameIn(statement) := old(manifests)[NameIn(statement)] + 1]
                           else old(manifests)
    {
      hide TablesOk, Table.Valid, At, Parts, PutOutcome, KeyView, TookPut, AllSeen, TableOk, Fits;
      var result := SplitString(statement, SPACE);
      if |result| < 2 {
        return Throws;
      }
      if result[1] !in tables {
        return Failed;
      }
      TableOf(owner, tables, result[1]);
      var table := tables[result[1]];
      var status := PutInto(result[1], table, statement);
      PutIsTaken(old(Contents()), Contents(), statement, table.file.visible);
      hide ViewsOf;
      if status == PutThrows {
        return Throws;
      }
      manifests := manifests[result[1] := manifests[result[1]] + 1];
      r := Done;
    }

    /** Gets from the table that the statement names. */
    method Get(statement: Bytes) returns (r: Outcome, message: Bytes)
      requires Valid()
      modifies owner.Keys
      ensures Valid() && Contents() == old(Contents())
      ensures (r, message) == GetResult(Contents(), statement)
      ensures Answers(Contents(), statement, r, message)
    {
      ResultAnswers(Contents(), statement);
      hide TablesOk, Table.Valid, At, Parts, Answer, KeyView, IndexLog;
      var result := SplitString(statement, SPACE);
      if |result| < 2 {
        return Throws, [];
      }
      if result[1] !in tables {
        return Failed, [];
      }
      TableOf(owner, tables, result[1]);
      var answer := GetFrom(result[1], tables[result[1]], statement);
      match answer {
        case GetThrows =>
          r, message := Throws, [];
        case Missing =>
          r, message := Done, [];
        case Found(text) =>
          r, message := Done, text;
      }
    }

    /** The statements of a range, or nothing for a name without a table. */
    method GetStatements(name: Bytes, start: nat, end: nat) returns (aborted: bool, data: seq<Bytes>)
      requires Valid()
      requires name in tables ==> var log := tables[name].log; end <= |log| || Start(log, |log|) < TWO32
      ensures aborted <==> name in Contents() && start < end && Contents()[name].log == []
      ensures if name in Contents() then Batch(Contents()[name], start, end, data) else data == []
    {
      hide TablesOk, At, Parts, OnDisk, Start, Readable, Texts, TableOk, Table.Valid, Table.DiskValid;
      aborted, data := false, [];
      if name !in tables {
        return;
      }
      TableOf(owner, tables, name);
      hide ViewsOf;
      DiskIsValid(tables[name]);
      var status;
      status, data := tables[name].GetBatchData(start, end, data);
      aborted := status == Aborted;
    }

    method GetFrom(name: Bytes, table: Table, statement: Bytes) returns (answer: GetStatus)
      requires Valid() && name in tables && tables[name] == table
      modifies owner.Keys
      ensures Valid() && Contents() == old(Contents())
      ensures name in Contents()
      ensures var v := Contents()[name];
              answer == Answer(IndexLog(KeyView(v.schema), v.tsName, v.log), v.log, v.visible, statement)
    {
      hide TableOk, ViewOf, TablesOk, Placed, At, Answer, KeyView, IndexLog;
      TableOf(owner, tables, name);
      hide ViewsOf;
      answer := table.Get(statement);
      Untouched(name);
      SameOwner(owner, name);
      TableChanged(owner, {}, tables, name, table);
      ViewKept(old(Contents()), name);
    }
  }

  /** `data` is as much of a range of statements as can be read. */
  ghost predicate Batch(v: TableView, start: nat, end: nat, data: seq<Bytes>) {
    && data == Texts(v.log, start, |data|) && (data == [] || start + |data| <= end)
    && (forall i :: start <= i < start + |data| ==> Readable(v.log, v.visible, i))
    && (start + |data| < end ==> !Readable(v.log, v.visible, start + |data|))
  }

  lemma SameOwner(owner: Owner, name: Bytes)
    ensures Placed(owner, {}, name) == owner
  {
  }

  lemma ViewKept(views: Views, name: Bytes)
    requires name in views
    ensures (views - {name})[name := views[name]] == views
  {
  }
}
