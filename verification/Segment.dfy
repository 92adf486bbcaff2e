/** The index of ibdb/src/storage/segment.h: a skip list of keys, each with a skip list of
    timestamps, each with a skip list from values to offsets. */
module Segments {
  import opened Coding
  import opened SkipLists
  import opened Slices
  import opened Ownership

  type Index = SkipList<Bytes, nat>
  type ValueEntry = SkipList<nat, Index>
  type Entries = SkipList<Bytes, ValueEntry>

  // ---------- the map that the index stands for ----------

  type Values = map<Bytes, nat>
  type Times = map<nat, Values>
  type View = map<Bytes, Times>

  predicate Holds(v: View, key: Bytes, ts: nat, value: Bytes) {
    key in v && ts in v[key] && value in v[key][ts]
  }

  function Lookup(v: View, key: Bytes, ts: nat, value: Bytes): nat
    requires Holds(v, key, ts, value)
  {
    v[key][ts][value]
  }

  function Fetch(times: Times, ts: nat, value: Bytes): (bool, nat) {
    if ts in times && value in times[ts] then (true, times[ts][value]) else (false, 0)
  }

  /** A timestamp without values. */
  function Dated(times: Times, ts: nat): Times { times[ts := map[]] }

  /** Keeps what is there; otherwise adds the offset, below a key that exists. */
  function RecordedAt(times: Times, ts: nat, value: Bytes, offset: nat): Times {
    var values := if ts in times then times[ts] else map[];
    times[ts := if value in values then values else values[value := offset]]
  }

  function Recorded(v: View, key: Bytes, ts: nat, value: Bytes, offset: nat): View {
    if key in v then v[key := RecordedAt(v[key], ts, value, offset)] else v
  }

  lemma Overwritten<K, V>(m: map<K, V>, key: K, first: V, second: V)
    ensures m[key := first][key := second] == m[key := second]
  {
  }

  /** An empty timestamp makes no difference to what is recorded. */
  lemma DatedRecorded(v: View, key: Bytes, ts: nat, value: Bytes, offset: nat)
    requires key in v && ts !in v[key]
    ensures Recorded(v[key := Dated(v[key], ts)], key, ts, value, offset) == Recorded(v, key, ts, value, offset)
  {
    var dated := Dated(v[key], ts);
    Overwritten(v[key], ts, map[], map[value := offset]);
    Overwritten(v, key, dated, RecordedAt(dated, ts, value, offset));
  }

  /** The first offset recorded for a value stays. */
  lemma RecordedAgain(v: View, key: Bytes, ts: nat, value: Bytes, offset: nat)
    requires Holds(v, key, ts, value)
    ensures Recorded(v, key, ts, value, offset) == v
  {
    assert RecordedAt(v[key], ts, value, offset) == v[key];
  }

  /** One operation on an index. */
  datatype Op = BuildOp(key: Bytes) | PutOp(key: Bytes, ts: nat, value: Bytes, offset: nat) | RemoveOp(key: Bytes)

  function Apply(v: View, op: Op): View {
    match op
    case BuildOp(key) => if key in v then v else v[key := map[]]
    case PutOp(key, ts, value, offset) => Recorded(v, key, ts, value, offset)
    case RemoveOp(key) => v - {key}
  }

  function Run(v: View, ops: seq<Op>): View
    decreases |ops|
  {
    if ops == [] then v else Run(Apply(v, ops[0]), ops[1..])
  }

  /** An offset, once recorded, is what every later lookup finds, until its key is removed. */
  lemma {:induction false} NeverOverwritten(v: View, ops: seq<Op>, key: Bytes, ts: nat, value: Bytes)
    requires Holds(v, key, ts, value) && RemoveOp(key) !in ops
    ensures Holds(Run(v, ops), key, ts, value) && Lookup(Run(v, ops), key, ts, value) == Lookup(v, key, ts, value)
    decreases |ops|
  {
    if ops != [] {
      assert ops[0] in ops && ops[0] != RemoveOp(key);
      NeverOverwritten(Apply(v, ops[0]), ops[1..], key, ts, value);
    }
  }

  // ---------- which object belongs where ----------

  datatype Place = Top | OfKey(key: Bytes) | OfTime(key: Bytes, ts: nat)

  type Places = map<object, Place>

  predicate InKey(p: Place, key: Bytes) { p != Top && p.key == key }

  /** The keys, and the timestamps of a key, that a place is part of. */
  function KeysAt(p: Place): set<Bytes> { if p == Top then {} else {p.key} }

  function TimesAt(p: Place): set<nat> { if p.OfTime? then {p.ts} else {} }

  ghost function Region(places: Places, key: Bytes): (objects: set<object>)
    ensures objects <= places.Keys
    ensures At(places, OfKey(key)) <= objects
    ensures forall ts :: At(places, OfTime(key, ts)) <= objects
  {
    set o | o in places && InKey(places[o], key)
  }

  ghost predicate IndexOk(places: Places, key: Bytes, ts: nat, index: Index)
    reads At(places, OfTime(key, ts))
  {
    && index in At(places, OfTime(key, ts))
    && index.Objects() <= At(places, OfTime(key, ts))
    && index.Valid() && index.cmp == SliceCompare
  }

  ghost function ValuesIn(places: Places, key: Bytes, ts: nat, index: Index): Values
    requires IndexOk(places, key, ts, index)
    reads At(places, OfTime(key, ts))
  {
    index.Contents()
  }

  ghost predicate EntryOk(places: Places, key: Bytes, entry: ValueEntry)
    reads At(places, OfKey(key))
  {
    && entry in At(places, OfKey(key))
    && entry.Objects() <= At(places, OfKey(key))
    && entry.Valid() && entry.cmp == TsCompare
  }

  ghost predicate TopOk(places: Places, entries: Entries)
    reads At(places, Top)
  {
    && entries in At(places, Top)
    && entries.Objects() <= At(places, Top)
    && entries.Valid() && entries.cmp == SliceCompare
  }

  ghost predicate TimesOk(places: Places, key: Bytes, indexes: map<nat, Index>)
    reads Region(places, key)
  {
    forall ts :: ts in indexes ==> IndexOk(places, key, ts, indexes[ts])
  }

  ghost function ValuesOf(places: Places, key: Bytes, indexes: map<nat, Index>): Times
    requires TimesOk(places, key, indexes)
    reads Region(places, key)
  {
    map ts | ts in indexes :: ValuesIn(places, key, ts, indexes[ts])
  }

  ghost predicate KeyOk(places: Places, key: Bytes, entry: ValueEntry)
    reads Region(places, key)
  {
    EntryOk(places, key, entry) && TimesOk(places, key, entry.Contents())
  }

  ghost function TimesOf(places: Places, key: Bytes, entry: ValueEntry): Times
    requires KeyOk(places, key, entry)
    reads Region(places, key)
  {
    ValuesOf(places, key, entry.Contents())
  }

  lemma IndexElsewhere(places: Places, objects: set<object>, p: Place, key: Bytes, ts: nat, index: Index)
    requires objects !! places.Keys && IndexOk(places, key, ts, index) && p != OfTime(key, ts)
    ensures IndexOk(Placed(places, objects, p), key, ts, index)
    ensures ValuesIn(Placed(places, objects, p), key, ts, index) == ValuesIn(places, key, ts, index)
  {
    PlacedElsewhere(places, objects, p, OfTime(key, ts));
    hide Placed, At, Good, Table;
  }

  lemma TimesElsewhere(places: Places, objects: set<object>, p: Place, key: Bytes, indexes: map<nat, Index>)
    requires objects !! places.Keys && TimesOk(places, key, indexes)
    requires forall ts :: ts in indexes ==> p != OfTime(key, ts)
    ensures TimesOk(Placed(places, objects, p), key, indexes)
    ensures ValuesOf(Placed(places, objects, p), key, indexes) == ValuesOf(places, key, indexes)
  {
    hide Placed, IndexOk, ValuesIn;
    forall ts | ts in indexes
      ensures IndexOk(Placed(places, objects, p), key, ts, indexes[ts])
      ensures ValuesIn(Placed(places, objects, p), key, ts, indexes[ts]) == ValuesIn(places, key, ts, indexes[ts])
    {
      IndexElsewhere(places, objects, p, key, ts, indexes[ts]);
    }
  }

  lemma KeyElsewhere(places: Places, objects: set<object>, p: Place, key: Bytes, entry: ValueEntry)
    requires objects !! places.Keys && !InKey(p, key) && KeyOk(places, key, entry)
    ensures KeyOk(Placed(places, objects, p), key, entry)
    ensures TimesOf(Placed(places, objects, p), key, entry) == TimesOf(places, key, entry)
  {
    hide Placed, TimesOk, ValuesOf;
    PlacedElsewhere(places, objects, p, OfKey(key));
    TimesElsewhere(places, objects, p, key, entry.Contents());
  }

  ghost predicate KeysOk(places: Places, keys: map<Bytes, ValueEntry>)
    reads places.Keys
  {
    forall key :: key in keys ==> KeyOk(places, key, keys[key])
  }

  ghost function ViewOf(places: Places, keys: map<Bytes, ValueEntry>): View
    requires KeysOk(places, keys)
    reads places.Keys
  {
    map key | key in keys :: TimesOf(places, key, keys[key])
  }

  lemma KeysElsewhere(places: Places, objects: set<object>, p: Place, keys: map<Bytes, ValueEntry>)
    requires objects !! places.Keys && KeysOk(places, keys)
    requires forall key :: key in keys ==> !InKey(p, key)
    ensures KeysOk(Placed(places, objects, p), keys)
    ensures ViewOf(Placed(places, objects, p), keys) == ViewOf(places, keys)
  {
    hide KeyOk, TimesOf, Placed;
    forall key | key in keys
      ensures KeyOk(Placed(places, objects, p), key, keys[key])
      ensures TimesOf(Placed(places, objects, p), key, keys[key]) == TimesOf(places, key, keys[key])
    {
      KeyElsewhere(places, objects, p, key, keys[key]);
    }
  }

  /** `added` objects of the list of keys and a new, empty `entry`. */
  ghost function WithKey(places: Places, added: set<object>, key: Bytes, entry: ValueEntry): Places
    reads entry
  {
    Placed(Placed(places, added, Top), entry.Objects(), OfKey(key))
  }

  lemma OneMoreKey(places: Places, keys: map<Bytes, ValueEntry>, key: Bytes, entry: ValueEntry)
    requires KeysOk(places, keys) && KeyOk(places, key, entry)
    ensures KeysOk(places, keys[key := entry])
    ensures ViewOf(places, keys[key := entry]) == ViewOf(places, keys)[key := TimesOf(places, key, entry)]
  {
    hide KeyOk, TimesOf;
  }

  lemma OneMoreTime(places: Places, key: Bytes, indexes: map<nat, Index>, ts: nat, index: Index)
    requires TimesOk(places, key, indexes) && IndexOk(places, key, ts, index)
    ensures TimesOk(places, key, indexes[ts := index])
    ensures ValuesOf(places, key, indexes[ts := index])
            == ValuesOf(places, key, indexes)[ts := ValuesIn(places, key, ts, index)]
  {
    hide IndexOk, ValuesIn;
  }

  lemma FreshIndex(entries: Entries)
    requires entries.Valid() && entries.cmp == SliceCompare && entries.Contents() == map[]
    ensures var places := Placed(map[], entries.Objects(), Top);
            && places.Keys == entries.Objects() && TopOk(places, entries)
            && KeysOk(places, entries.Contents()) && ViewOf(places, entries.Contents()) == map[]
  {
    hide Good, Table;
  }

  lemma TopFields(places: Places, entries: Entries)
    requires TopOk(places, entries)
    ensures entries in At(places, Top) && entries.Objects() <= At(places, Top)
    ensures entries.Valid() && entries.cmp == SliceCompare
  {
  }

  lemma TopGrown(places: Places, added: set<object>, places': Places, entries: Entries)
    requires entries in At(places, Top) && entries.Objects() <= At(places, Top) + added
    requires entries.Valid() && entries.cmp == SliceCompare
    requires At(places', Top) == At(places, Top) + added
    ensures TopOk(places', entries)
  {
    hide Good, At, Table;
  }

  lemma TopKept(places: Places, places': Places, entries: Entries)
    requires TopOk(places, entries) && At(places', Top) == At(places, Top)
    ensures TopOk(places', entries)
  {
  }

  lemma EmptyEntry(places: Places, key: Bytes, entry: ValueEntry)
    requires entry.Valid() && entry.cmp == TsCompare && entry.Contents() == map[]
    requires entry.Objects() <= At(places, OfKey(key))
    ensures KeyOk(places, key, entry) && TimesOf(places, key, entry) == map[]
  {
    hide Good, Table, TotalOrder, IndexOk;
  }

  lemma FilledIndex(places: Places, key: Bytes, ts: nat, index: Index)
    requires index.Valid() && index.cmp == SliceCompare
    requires index.Objects() <= At(places, OfTime(key, ts))
    ensures IndexOk(places, key, ts, index) && ValuesIn(places, key, ts, index) == index.Contents()
  {
    hide Good, Table, TotalOrder, At;
  }

  /** `added` objects of the list of timestamps of `key`, and the objects of a new `index`. */
  ghost function WithTime(places: Places, added: set<object>, key: Bytes, ts: nat, index: Index): Places
    reads index
  {
    Placed(Placed(places, added, OfKey(key)), index.Objects(), OfTime(key, ts))
  }

  lemma TimeAdded(places: Places, added: set<object>, keys: map<Bytes, ValueEntry>, key: Bytes,
                  indexes: map<nat, Index>, ts: nat, index: Index)
    requires added !! places.Keys && index.Objects() !! places.Keys + added
    requires KeysOk(places, keys) && key !in keys && TimesOk(places, key, indexes) && ts !in indexes
    requires index.Valid() && index.cmp == SliceCompare && index.Contents() == map[]
    ensures var places' := WithTime(places, added, key, ts, index);
            && KeysOk(places', keys) && ViewOf(places', keys) == ViewOf(places, keys)
            && TimesOk(places', key, indexes[ts := index])
            && ValuesOf(places', key, indexes[ts := index]) == ValuesOf(places, key, indexes)[ts := map[]]
            && At(places', Top) == At(places, Top) && At(places', OfKey(key)) == At(places, OfKey(key)) + added
            && places'.Keys == places.Keys + added + index.Objects()
  {
    hide Good, Table, TotalOrder, KeysOk, ViewOf, IndexOk, At, Placed, TimesOk, ValuesOf;
    var places1 := Placed(places, added, OfKey(key));
    KeysElsewhere(places, added, OfKey(key), keys);
    TimesElsewhere(places, added, OfKey(key), key, indexes);
    PlacedElsewhere(places, added, OfKey(key), Top);
    PlacedElsewhere(places, added, OfKey(key), OfKey(key));
    KeysElsewhere(places1, index.Objects(), OfTime(key, ts), keys);
    TimesElsewhere(places1, index.Objects(), OfTime(key, ts), key, indexes);
    PlacedElsewhere(places1, index.Objects(), OfTime(key, ts), Top);
    PlacedElsewhere(places1, index.Objects(), OfTime(key, ts), OfKey(key));
    PlacedElsewhere(places1, index.Objects(), OfTime(key, ts), OfTime(key, ts));
    FilledIndex(WithTime(places, added, key, ts, index), key, ts, index);
    OneMoreTime(WithTime(places, added, key, ts, index), key, indexes, ts, index);
  }

  lemma Replaced<K, V>(m: map<K, V>, key: K, value: V)
    ensures (m - {key})[key := value] == m[key := value] && m - {} == m
    ensures key in m && m[key] == value ==> (m - {key})[key := value] == m
  {
  }

  /** A key whose entry has changed. */
  lemma KeyChanged(places: Places, keys: map<Bytes, ValueEntry>, key: Bytes, entry: ValueEntry)
    requires key in keys && keys[key] == entry && KeysOk(places, keys - {key})
    requires EntryOk(places, key, entry) && TimesOk(places, key, entry.Contents())
    ensures KeysOk(places, keys) && KeyOk(places, key, entry)
    ensures ViewOf(places, keys) == ViewOf(places, keys - {key})[key := TimesOf(places, key, entry)]
  {
    hide EntryOk, TimesOk, KeysOk, ViewOf, Table;
    OneMoreKey(places, keys - {key}, key, entry);
    Replaced(keys, key, entry);
  }

  /** The state after an insertion into the timestamps of `key`. */
  lemma FinishTime(places: Places, added: set<object>, keys: map<Bytes, ValueEntry>, key: Bytes, entry: ValueEntry,
                   indexes: map<nat, Index>, ts: nat, index: Index)
    requires added !! places.Keys && index.Objects() !! places.Keys + added
    requires key in keys && keys[key] == entry && KeysOk(places, keys - {key})
    requires TimesOk(places, key, indexes) && ts !in indexes
    requires index.Valid() && index.cmp == SliceCompare && index.Contents() == map[]
    requires entry.Valid() && entry.cmp == TsCompare && entry.Contents() == indexes[ts := index]
    requires entry in At(places, OfKey(key)) && entry.Objects() <= At(places, OfKey(key)) + added
    ensures var places' := WithTime(places, added, key, ts, index);
            && KeysOk(places', keys) && KeyOk(places', key, entry)
            && TimesOf(places', key, entry) == ValuesOf(places, key, indexes)[ts := map[]]
            && ViewOf(places', keys) == ViewOf(places, keys - {key})[key := TimesOf(places', key, entry)]
            && At(places', Top) == At(places, Top)
            && places'.Keys == places.Keys + added + index.Objects()
  {
    hide Good, Table, TotalOrder, TimesOk, ValuesOf, KeysOk, ViewOf, WithTime, At;
    TimeAdded(places, added, keys - {key}, key, indexes, ts, index);
    KeyChanged(WithTime(places, added, key, ts, index), keys, key, entry);
  }

  /** The state after an insertion into the values of `key` at `ts`. */
  lemma FinishValue(places: Places, added: set<object>, keys: map<Bytes, ValueEntry>, key: Bytes, entry: ValueEntry,
                    ts: nat, index: Index)
    requires added !! places.Keys
    requires key in keys && keys[key] == entry && KeysOk(places, keys - {key})
    requires EntryOk(places, key, entry) && ts in entry.Contents() && entry.Contents()[ts] == index
    requires TimesOk(places, key, entry.Contents() - {ts})
    requires index.Valid() && index.cmp == SliceCompare
    requires index in At(places, OfTime(key, ts)) && index.Objects() <= At(places, OfTime(key, ts)) + added
    ensures var places' := Placed(places, added, OfTime(key, ts));
            && KeysOk(places', keys) && KeyOk(places', key, entry)
            && TimesOf(places', key, entry) == ValuesOf(places, key, entry.Contents() - {ts})[ts := index.Contents()]
            && ViewOf(places', keys) == ViewOf(places, keys - {key})[key := TimesOf(places', key, entry)]
            && At(places', Top) == At(places, Top)
            && places'.Keys == places.Keys + added
  {
    hide Good, Table, TotalOrder, KeysOk, ViewOf, IndexOk, ValuesIn, At, Placed, TimesOk, ValuesOf;
    var places', indexes := Placed(places, added, OfTime(key, ts)), entry.Contents();
    KeysElsewhere(places, added, OfTime(key, ts), keys - {key});
    TimesElsewhere(places, added, OfTime(key, ts), key, indexes - {ts});
    PlacedElsewhere(places, added, OfTime(key, ts), Top);
    PlacedElsewhere(places, added, OfTime(key, ts), OfKey(key));
    PlacedElsewhere(places, added, OfTime(key, ts), OfTime(key, ts));
    FilledIndex(places', key, ts, index);
    OneMoreTime(places', key, indexes - {ts}, ts, index);
    Replaced(indexes, ts, index);
    KeyChanged(places', keys, key, entry);
  }

  lemma KeyAdded(places: Places, added: set<object>, keys: map<Bytes, ValueEntry>, key: Bytes, entry: ValueEntry)
    requires added !! places.Keys && entry.Objects() !! places.Keys + added
    requires KeysOk(places, keys) && key !in keys
    requires entry.Valid() && entry.cmp == TsCompare && entry.Contents() == map[]
    ensures var places' := WithKey(places, added, key, entry);
            && KeysOk(places', keys[key := entry])
            && ViewOf(places', keys[key := entry]) == ViewOf(places, keys)[key := map[]]
            && At(places', Top) == At(places, Top) + added
            && places'.Keys == places.Keys + added + entry.Objects()
  {
    hide Good, Table, TotalOrder, KeysOk, ViewOf, KeyOk, At, Placed, TimesOf;
    var places1 := Placed(places, added, Top);
    KeysElsewhere(places, added, Top, keys);
    PlacedElsewhere(places, added, Top, Top);
    PlacedElsewhere(places1, entry.Objects(), OfKey(key), Top);
    PlacedElsewhere(places1, entry.Objects(), OfKey(key), OfKey(key));
    KeysElsewhere(places1, entry.Objects(), OfKey(key), keys);
    EmptyEntry(WithKey(places, added, key, entry), key, entry);
    OneMoreKey(WithKey(places, added, key, entry), keys, key, entry);
  }

  /** The index of one table: its keys are fixed by BuildKeyIndex, and Put fills them. */
  class Segment {
    const entries: Entries
    ghost var places: Places

    ghost predicate Valid()
      reads this, places.Keys
    {
      && this !in places
      && TopOk(places, entries)
      && KeysOk(places, entries.Contents())
    }

    ghost function Contents(): View
      requires Valid()
      reads this, places.Keys
    {
      ViewOf(places, entries.Contents())
    }

    ghost function EntryAt(key: Bytes): ValueEntry
      requires key in entries.Contents()
      reads entries
    {
      entries.Contents()[key]
    }

    ghost function IndexAt(key: Bytes, ts: nat): Index
      requires key in entries.Contents() && ts in EntryAt(key).Contents()
      reads entries, EntryAt(key)
    {
      EntryAt(key).Contents()[ts]
    }

    lemma Unfold()
      requires Valid()
      ensures entries.Valid() && entries.Contents().Keys == Contents().Keys
    {
      hide Good, Table, KeysOk, TimesOf, KeyOk;
    }

    lemma UnfoldKey(key: Bytes)
      requires Valid() && key in Contents()
      ensures key in entries.Contents()
      ensures KeyOk(places, key, EntryAt(key)) && TimesOf(places, key, EntryAt(key)) == Contents()[key]
      ensures EntryOk(places, key, EntryAt(key)) && TimesOk(places, key, EntryAt(key).Contents())
      ensures ValuesOf(places, key, EntryAt(key).Contents()) == Contents()[key]
      ensures EntryAt(key).Valid() && EntryAt(key).Contents().Keys == Contents()[key].Keys
    {
      hide Good, Table, TimesOk;
      assert KeyOk(places, key, EntryAt(key));
    }

    lemma UnfoldTime(key: Bytes, ts: nat)
      requires Valid() && key in Contents() && ts in Contents()[key]
      ensures key in entries.Contents() && ts in EntryAt(key).Contents()
      ensures IndexOk(places, key, ts, IndexAt(key, ts))
      ensures IndexAt(key, ts).Valid() && IndexAt(key, ts).Contents() == Contents()[key][ts]
    {
      hide Good, Table, EntryOk, KeyOk, TimesOf, KeysOk, ViewOf;
      UnfoldKey(key);
      assert IndexOk(places, key, ts, IndexAt(key, ts));
    }

    /** Writes at one place do not affect the keys that the place is not part of. */
    twostate lemma KeysUntouched(p: Place)
      requires old(Valid())
      requires forall o :: o in old(places) && o !in At(old(places), p) ==> unchanged(o)
      ensures KeysOk(old(places), old(entries.Contents()) - KeysAt(p))
      ensures ViewOf(old(places), old(entries.Contents()) - KeysAt(p)) == old(Contents()) - KeysAt(p)
    {
      hide EntryOk, IndexOk, Table, TopOk;
      var all := old(entries.Contents());
      var keys := all - KeysAt(p);
      assert old(allocated(all));
      forall key | key in keys
        ensures KeyOk(old(places), key, keys[key])
        ensures TimesOf(old(places), key, keys[key]) == old(TimesOf(places, key, keys[key]))
      {
        assert key in all && old(allocated(all[key]));
        assert old(KeyOk(places, key, all[key]));
        assert forall o :: o in Region(old(places), key) ==> unchanged(o);
      }
    }

    twostate lemma TopUntouched(p: Place)
      requires p != Top && old(Valid())
      requires forall o :: o in old(places) && o !in At(old(places), p) ==> unchanged(o)
      ensures TopOk(old(places), entries) && entries.Contents() == old(entries.Contents())
    {
      hide Good, Table, KeysOk;
      assert entries in At(old(places), Top);
      assert forall o :: o in At(old(places), Top) ==> unchanged(o);
    }

    twostate lemma EntryUntouched(p: Place)
      requires p.OfTime? && old(p.key in entries.Contents())
      requires old(KeyOk(places, p.key, EntryAt(p.key)))
      requires forall o :: o in old(places) && o !in At(old(places), p) ==> unchanged(o)
      ensures var entry := old(EntryAt(p.key));
              EntryOk(old(places), p.key, entry) && entry.Contents() == old(EntryAt(p.key).Contents())
    {
      hide Good, Table, TimesOk;
      assert old(EntryAt(p.key)) in At(old(places), OfKey(p.key));
      assert forall o :: o in At(old(places), OfKey(p.key)) ==> unchanged(o);
    }

    /** Writes at one place below a key do not affect the other timestamps of the key. */
    twostate lemma TimesUntouched(p: Place)
      requires p != Top && old(p.key in entries.Contents())
      requires old(KeyOk(places, p.key, EntryAt(p.key)))
      requires forall o :: o in old(places) && o !in At(old(places), p) ==> unchanged(o)
      ensures var indexes := old(EntryAt(p.key).Contents()) - TimesAt(p);
              && TimesOk(old(places), p.key, indexes)
              && ValuesOf(old(places), p.key, indexes) == old(TimesOf(places, p.key, EntryAt(p.key))) - TimesAt(p)
    {
      hide IndexOk, ValuesIn, Table, TopOk, EntryOk;
      var all := old(EntryAt(p.key).Contents());
      var indexes := all - TimesAt(p);
      assert old(allocated(all));
      forall ts | ts in indexes
        ensures IndexOk(old(places), p.key, ts, indexes[ts])
        ensures ValuesIn(old(places), p.key, ts, indexes[ts]) == old(ValuesIn(places, p.key, ts, indexes[ts]))
      {
        assert ts in all && old(allocated(all[ts]));
        assert old(IndexOk(places, p.key, ts, all[ts]));
        assert forall o :: o in At(old(places), OfTime(p.key, ts)) ==> unchanged(o);
      }
    }

    constructor ()
      ensures Valid() && Contents() == map[]
      ensures fresh(places.Keys)
    {
      SliceOrder();
      hide Good, Table, TotalOrder, TopOk, KeysOk, ViewOf, Placed, At;
      entries := new SkipList(SliceCompare);
      new;
      places := Placed(map[], entries.Objects(), Top);
      FreshIndex(entries);
    }

    method Contains(key: Bytes) returns (found: bool)
      requires Valid()
      ensures found <==> key in Contents()
    {
      found := entries.Contains(key);
    }

    /** Adds a key without any timestamps, unless the key exists. */
    method BuildKeyIndex(key: Bytes) returns (built: bool)
      requires Valid()
      modifies this`places, places.Keys
      ensures Valid() && fresh(places.Keys - old(places.Keys))
      ensures built <==> key !in old(Contents())
      ensures Contents() == if built then old(Contents())[key := map[]] else old(Contents())
    {
      hide Good, Table, TotalOrder, TopOk, KeyOk;
      built := Contains(key);
      built := !built;
      if built {
        TsOrder();
        var entry := new SkipList(TsCompare);
        AddKey(key, entry);
      }
    }

    method AddKey(key: Bytes, entry: ValueEntry)
      requires Valid() && key !in entries.Contents()
      requires entry.Valid() && entry.cmp == TsCompare && entry.Contents() == map[]
      requires entry.Objects() !! places.Keys && this !in entry.Objects()
      modifies this`places, places.Keys
      ensures Valid() && fresh(places.Keys - old(places.Keys) - entry.Objects())
      ensures Contents() == old(Contents())[key := map[]]
    {
      hide Good, Table, TotalOrder, TopOk, KeyOk, TimesOf, KeysOk, ViewOf, WithKey, Placed, At;
      TopFields(places, entries);
      ghost var keys, objects := entries.Contents(), entries.Objects();
      entries.Insert(key, entry);
      assert entry.Valid() && entry.Contents() == map[];
      ghost var added := entries.Objects() - objects;
      places := WithKey(places, added, key, entry);
      KeysUntouched(Top);
      Replaced(keys, key, entry);
      Replaced(old(Contents()), key, map[]);
      KeyAdded(old(places), added, keys, key, entry);
      TopGrown(old(places), added, places, entries);
    }

    /** Forgets a key and all that is stored below it. */
    method Remove(key: Bytes) returns (removed: bool)
      requires Valid()
      modifies this`places, places.Keys
      ensures Valid() && places == old(places)
      ensures removed <==> key in old(Contents())
      ensures Contents() == old(Contents()) - {key}
    {
      hide Good, Table, TotalOrder, KeyOk, TimesOf;
      ghost var keys := entries.Contents();
      removed := Contains(key);
      if removed {
        assert forall o :: o in places && places[o] != Top ==> o !in entries.Objects();
        removed := entries.Remove(key);
        KeysUntouched(Top);
        assert keys - {} == keys && old(Contents()) - {} == old(Contents());
      }
    }

    method AddTime(key: Bytes, entry: ValueEntry, ts: nat, index: Index)
      requires Valid() && key in Contents() && key in entries.Contents() && entry == EntryAt(key)
      requires ts !in Contents()[key]
      requires index.Valid() && index.cmp == SliceCompare && index.Contents() == map[]
      requires index.Objects() !! places.Keys && this !in index.Objects()
      modifies this`places, places.Keys
      ensures Valid() && fresh(places.Keys - old(places.Keys) - index.Objects())
      ensures entries.Contents() == old(entries.Contents())
      ensures Contents() == old(Contents())[key := Dated(old(Contents())[key], ts)]
    {
      hide Good, Table, TotalOrder, TopOk, KeyOk, TimesOk, ValuesOf, TimesOf, KeysOk, ViewOf, WithTime, Placed, At;
      UnfoldKey(key);
      ghost var keys, indexes, objects := entries.Contents(), entry.Contents(), entry.Objects();
      entry.Insert(ts, index);
      ghost var added := entry.Objects() - objects;
      places := WithTime(places, added, key, ts, index);
      TopUntouched(OfKey(key));
      KeysUntouched(OfKey(key));
      TimesUntouched(OfKey(key));
      Replaced(indexes, ts, index);
      Replaced(old(Contents())[key], ts, map[]);
      FinishTime(old(places), added, keys, key, entry, indexes, ts, index);
      TopKept(old(places), places, entries);
      Replaced(old(Contents()), key, TimesOf(places, key, entry));
    }

    method AddValue(key: Bytes, entry: ValueEntry, ts: nat, index: Index, value: Bytes, offset: nat)
      requires Valid() && key in Contents() && key in entries.Contents() && entry == EntryAt(key)
      requires ts in Contents()[key] && ts in entry.Contents() && index == IndexAt(key, ts)
      requires value !in Contents()[key][ts]
      modifies this`places, places.Keys
      ensures Valid() && fresh(places.Keys - old(places.Keys))
      ensures Contents() == Recorded(old(Contents()), key, ts, value, offset)
    {
      hide Good, Table, TotalOrder, TopOk, KeyOk, TimesOk, ValuesOf, TimesOf, KeysOk, ViewOf, Placed, At, EntryOk;
      UnfoldKey(key);
      UnfoldTime(key, ts);
      ghost var keys, objects := entries.Contents(), index.Objects();
      index.Insert(value, offset);
      ghost var added := index.Objects() - objects;
      places := Placed(places, added, OfTime(key, ts));
      TopUntouched(OfTime(key, ts));
      KeysUntouched(OfTime(key, ts));
      EntryUntouched(OfTime(key, ts));
      TimesUntouched(OfTime(key, ts));
      Replaced(old(Contents())[key], ts, index.Contents());
      FinishValue(old(places), added, keys, key, entry, ts, index);
      TopKept(old(places), places, entries);
      Replaced(old(Contents()), key, TimesOf(places, key, entry));
    }

    /** The last part of Put: the key and the timestamp exist. */
    method PutAt(key: Bytes, entry: ValueEntry, ts: nat, value: Bytes, offset: nat) returns (added: bool)
      requires Valid() && key in Contents() && key in entries.Contents() && entry == EntryAt(key)
      requires ts in Contents()[key]
      modifies this`places, places.Keys
      ensures Valid() && fresh(places.Keys - old(places.Keys))
      ensures added <==> value !in old(Contents())[key][ts]
      ensures Contents() == Recorded(old(Contents()), key, ts, value, offset)
    {
      hide Good, Table, TotalOrder, TopOk, KeyOk, TimesOf, KeysOk, ViewOf, At, EntryOk, IndexOk;
      UnfoldKey(key);
      var index := ValueOf(entry, ts);
      UnfoldTime(key, ts);
      var found := index.Contains(value);
      added := !found;
      if added {
        AddValue(key, entry, ts, index, value, offset);
      } else {
        RecordedAgain(old(Contents()), key, ts, value, offset);
      }
    }

    /** Makes an index for a new timestamp. */
    method HaveTime(key: Bytes, entry: ValueEntry, ts: nat)
      requires Valid() && key in Contents() && key in entries.Contents() && entry == EntryAt(key)
      modifies this`places, places.Keys
      ensures Valid() && fresh(places.Keys - old(places.Keys))
      ensures entries.Contents() == old(entries.Contents())
      ensures key in Contents() && ts in Contents()[key]
      ensures Contents() == if ts in old(Contents())[key] then old(Contents())
                            else old(Contents())[key := Dated(old(Contents())[key], ts)]
    {
      hide Good, Table, TotalOrder, TopOk, KeyOk, TimesOf, KeysOk, ViewOf, At, EntryOk, IndexOk;
      UnfoldKey(key);
      var found := entry.Contains(ts);
      if !found {
        SliceOrder();
        var index := new SkipList(SliceCompare);
        AddTime(key, entry, ts, index);
      }
    }

    /** Stores the offset below an existing key, unless the timestamp has the value already. */
    method Put(key: Bytes, ts: nat, value: Bytes, offset: nat) returns (added: bool)
      requires Valid()
      modifies this`places, places.Keys
      ensures Valid() && fresh(places.Keys - old(places.Keys))
      ensures added <==> key in old(Contents()) && !Holds(old(Contents()), key, ts, value)
      ensures Contents() == Recorded(old(Contents()), key, ts, value, offset)
    {
      hide Good, Table, TotalOrder, TopOk, KeyOk, TimesOf, KeysOk, ViewOf, At, EntryOk, IndexOk;
      added := Contains(key);
      if added {
        Unfold();
        var entry := ValueOf(entries, key);
        HaveTime(key, entry, ts);
        if ts !in old(Contents())[key] { DatedRecorded(old(Contents()), key, ts, value, offset); }
        hide Recorded, Dated;
        added := PutAt(key, entry, ts, value, offset);
      }
    }

    /** The last part of Get: the key exists. */
    method GetAt(key: Bytes, entry: ValueEntry, ts: nat, value: Bytes, ghost times: Times)
      returns (found: bool, offset: nat)
      requires Valid() && key in Contents() && times == Contents()[key]
      requires key in entries.Contents() && entry == EntryAt(key)
      ensures (found, offset) == Fetch(times, ts, value)
    {
      hide Good, Table, KeysOk, ViewOf, TopOk, KeyOk, TimesOf, EntryOk, IndexOk, At;
      offset := 0;
      UnfoldKey(key);
      found := entry.Contains(ts);
      if found {
        var index := ValueOf(entry, ts);
        UnfoldTime(key, ts);
        found := index.Contains(value);
        if found {
          offset := ValueOf(index, value);
        }
      }
    }

    method Get(key: Bytes, ts: nat, value: Bytes) returns (found: bool, offset: nat)
      requires Valid()
      ensures found <==> Holds(Contents(), key, ts, value)
      ensures found ==> offset == Lookup(Contents(), key, ts, value)
    {
      hide Good, Table, KeysOk, ViewOf, TopOk, KeyOk, TimesOf, EntryOk, IndexOk, At;
      offset := 0;
      found := Contains(key);
      if found {
        Unfold();
        var entry := ValueOf(entries, key);
        found, offset := GetAt(key, entry, ts, value, Contents()[key]);
      }
    }
  }

  /** Performs operations one after the other. */
  method Perform(segment: Segment, ops: seq<Op>)
    requires segment.Valid()
    modifies segment`places, segment.places.Keys
    ensures segment.Valid() && segment.Contents() == Run(old(segment.Contents()), ops)
    ensures fresh(segment.places.Keys - old(segment.places.Keys))
  {
    hide KeysOk, TopOk, ViewOf, Recorded;
    ghost var v := segment.Contents();
    for i := 0 to |ops|
      invariant segment.Valid() && Run(segment.Contents(), ops[i..]) == Run(v, ops)
      invariant fresh(segment.places.Keys - old(segment.places.Keys))
    {
      assert ops[i..][1..] == ops[i + 1..];
      match ops[i] {
        case BuildOp(key) =>
          var built := segment.BuildKeyIndex(key);
        case PutOp(key, ts, value, offset) =>
          var added := segment.Put(key, ts, value, offset);
        case RemoveOp(key) =>
          var removed := segment.Remove(key);
      }
    }
  }

  /** FindEqual(key)->value() */
  method ValueOf<K(!new, ==), V>(list: SkipList<K, V>, key: K) returns (value: V)
    requires list.Valid() && key in list.Contents()
    ensures value == list.Contents()[key]
  {
    var r := list.FindEqual(key);
    value := r.node.entry.value;
  }
}
