/** Statements and what the index makes of them: ibdb/src/storage/table.h and SplitString of
    ibdb/src/base/utils.h. */
module Statements {
  import opened Coding
  import opened Segments

  const SPACE: bv8 := 32
  const COMMA: bv8 := 44

  datatype Option<T> = None | Some(value: T)

  // ---------- splitting ----------

  /** The pieces between delimiters; two delimiters in a row have an empty piece between them. */
  function Tokens(s: Bytes, d: bv8): (ts: seq<Bytes>)
    ensures |ts| > 0
    decreases |s|
  {
    if s == [] then [[]]
    else
      var rest := Tokens(s[1..], d);
      if s[0] == d then [[]] + rest else [[s[0]] + rest[0]] + rest[1..]
  }

  /** SplitString: nothing comes from the empty string. */
  function SplitString(full: Bytes, d: bv8): seq<Bytes> {
    if full == [] then [] else Tokens(full, d)
  }

  function Join(ts: seq<Bytes>, d: bv8): Bytes
    requires |ts| > 0
    decreases |ts|
  {
    if |ts| == 1 then ts[0] else ts[0] + [d] + Join(ts[1..], d)
  }

  lemma {:induction false} JoinTokens(s: Bytes, d: bv8)
    ensures Join(Tokens(s, d), d) == s
    ensures forall t :: t in Tokens(s, d) ==> d !in t
    decreases |s|
  {
    if s != [] {
      var rest := Tokens(s[1..], d);
      JoinTokens(s[1..], d);
      assert s == [s[0]] + s[1..];
      if s[0] == d {
        assert ([[]] + rest)[1..] == rest;
      } else {
        assert Tokens(s, d)[1..] == rest[1..];
        if |rest| > 1 {
          assert Join(Tokens(s, d), d) == ([s[0]] + rest[0]) + [d] + Join(rest[1..], d);
        }
      }
    }
  }

  /** Splitting gives back the pieces that were joined. */
  lemma {:induction false} TokensJoin(ts: seq<Bytes>, d: bv8)
    requires |ts| > 0 && forall t :: t in ts ==> d !in t
    ensures Tokens(Join(ts, d), d) == ts
    decreases |ts|, |ts[0]|
  {
    var s := Join(ts, d);
    if ts[0] == [] {
      if |ts| > 1 {
        assert s == [d] + Join(ts[1..], d);
        assert s[1..] == Join(ts[1..], d);
        TokensJoin(ts[1..], d);
        assert ts == [[]] + ts[1..];
      } else {
        assert ts == [[]];
      }
    } else {
      var c, t := ts[0][0], ts[0][1..];
      assert c in ts[0] && ts[0] == [c] + t;
      var ts' := [t] + ts[1..];
      assert ts'[1..] == ts[1..];
      assert s == [c] + Join(ts', d);
      assert s[1..] == Join(ts', d);
      assert ts[0] in ts && forall x :: x in t ==> x in ts[0];
      TokensJoin(ts', d);
      assert ts == [[c] + t] + ts[1..];
    }
  }

  // ---------- numbers ----------

  predicate IsDigit(c: bv8) { 48 <= Value(c) <= 57 }

  predicate AllDigits(s: Bytes) { forall i :: 0 <= i < |s| ==> IsDigit(s[i]) }

  function Decimal(s: Bytes): nat
    requires AllDigits(s)
    decreases |s|
  {
    if s == [] then 0
    else
      assert IsDigit(s[|s| - 1]);
      10 * Decimal(s[..|s| - 1]) + (Value(s[|s| - 1]) - 48)
  }

  const PLUS: bv8 := 43
  const MINUS: bv8 := 45

  predicate HasSign(s: Bytes) { s != [] && (s[0] == PLUS || s[0] == MINUS) }

  /** lexical_cast<uint64_t>: perhaps a sign, and then digits without overflow. What follows a
      minus is negated in 64 bits. */
  function ParseU64(s: Bytes): Option<nat> {
    var digits := if HasSign(s) then s[1..] else s;
    if digits == [] || !AllDigits(digits) || Decimal(digits) >= TWO64 then None
    else Some(if s[0] == MINUS then U64(TWO64 - Decimal(digits)) else Decimal(digits))
  }

  function DecimalText(n: nat): Bytes {
    (if n < 10 then [] else DecimalText(n / 10)) + [ToByte(48 + n % 10)]
  }

  lemma {:induction false} DecimalOfText(n: nat)
    ensures DecimalText(n) != [] && AllDigits(DecimalText(n))
    ensures Decimal(DecimalText(n)) == n
    decreases n
  {
    hide ToByte, Value;
    ByteRoundTrip(48 + n % 10);
    if n >= 10 {
      DecimalOfText(n / 10);
      assert DecimalText(n)[..|DecimalText(n)| - 1] == DecimalText(n / 10);
    } else {
      assert DecimalText(n)[..|DecimalText(n)| - 1] == [];
    }
  }

  lemma ParseDigits(s: Bytes)
    requires s != [] && AllDigits(s) && Decimal(s) < TWO64
    ensures ParseU64(s) == Some(Decimal(s))
  {
    assert IsDigit(s[0]);
    hide AllDigits, Decimal;
  }

  lemma ParseSigned(sign: bv8, s: Bytes)
    requires sign == PLUS || sign == MINUS
    requires s != [] && AllDigits(s) && Decimal(s) < TWO64
    ensures ParseU64([sign] + s) == Some(if sign == MINUS then U64(TWO64 - Decimal(s)) else Decimal(s))
  {
    hide AllDigits, Decimal, U64;
    assert ([sign] + s)[1..] == s;
  }

  /** A number below 2^64 is read back from its text, with either sign. */
  lemma ParsesBack(n: nat)
    requires n < TWO64
    ensures ParseU64(DecimalText(n)) == ParseU64([PLUS] + DecimalText(n)) == Some(n)
    ensures ParseU64([MINUS] + DecimalText(n)) == Some(U64(TWO64 - n))
  {
    hide DecimalText, Decimal, AllDigits, U64, ParseU64;
    DecimalOfText(n);
    ParseDigits(DecimalText(n));
    ParseSigned(PLUS, DecimalText(n));
    ParseSigned(MINUS, DecimalText(n));
  }

  // ---------- C strings ----------

  /** std::string(const char*): everything before the first zero byte. */
  function CStr(s: Bytes): Bytes {
    if s == [] || s[0] == 0 then [] else [s[0]] + CStr(s[1..])
  }

  lemma {:induction false} CStrKeeps(s: Bytes)
    ensures CStr(s) <= s && 0 !in CStr(s)
    ensures CStr(s) == s <==> 0 !in s
    ensures |CStr(s)| < |s| ==> s[|CStr(s)|] == 0
  {
    if s != [] && s[0] != 0 {
      CStrKeeps(s[1..]);
      assert s == [s[0]] + s[1..];
    }
  }

  // ---------- put statements ----------

  /** The columns of a put statement. `Broken`: reading them throws an exception. `BadTime`: the
      timestamp is not a number. */
  datatype Row = Broken | BadTime | Row(keys: seq<Bytes>, values: seq<Bytes>, ts: nat)

  /** Where `name` is first, or the length of the list. */
  function FirstAt(keys: seq<Bytes>, name: Bytes): (i: nat)
    ensures i <= |keys|
  {
    if keys == [] || keys[0] == name then 0 else 1 + FirstAt(keys[1..], name)
  }

  /** `i` is the first place of the name, or the length of the list. */
  predicate FirstColumn(keys: seq<Bytes>, name: Bytes, i: nat) {
    i <= |keys| && name !in keys[..i] && (i < |keys| ==> keys[i] == name)
  }

  lemma {:induction false} FirstAtIs(keys: seq<Bytes>, name: Bytes)
    ensures FirstColumn(keys, name, FirstAt(keys, name))
    decreases |keys|
  {
    if keys != [] && keys[0] != name {
      FirstAtIs(keys[1..], name);
      var i := FirstAt(keys, name);
      assert keys[..i] == [keys[0]] + keys[1..][..i - 1];
    }
  }

  /** The columns of "insert table key,key,key value,value,value". */
  function ParsePut(statement: Bytes, tsName: Bytes): Row {
    var fields := SplitString(statement, SPACE);
    if |fields| < 4 then Broken
    else
      var keys, values := SplitString(fields[2], COMMA), SplitString(fields[3], COMMA);
      var pos := FirstAt(keys, tsName);
      if pos >= |values| then Broken
      else match ParseU64(values[pos])
        case None => BadTime
        case Some(ts) => Row(keys, values, ts)
  }

  /** Puts the columns from `i` on into the index; a missing value ends it with an exception. */
  function IndexColumns(v: View, keys: seq<Bytes>, values: seq<Bytes>, ts: nat, offset: nat, i: nat): (v': View)
    requires i <= |keys|
    ensures v'.Keys == v.Keys
    decreases |keys| - i
  {
    if i == |keys| then v
    else if keys[i] !in v then IndexColumns(v, keys, values, ts, offset, i + 1)
    else if i >= |values| then v
    else IndexColumns(Recorded(v, keys[i], ts, values[i], offset), keys, values, ts, offset, i + 1)
  }

  /** Every indexed column has a value. */
  predicate Complete(v: View, keys: seq<Bytes>, values: seq<Bytes>) {
    forall i :: |values| <= i < |keys| ==> keys[i] !in v
  }

  function IndexStatement(v: View, tsName: Bytes, statement: Bytes, offset: nat): (v': View)
    ensures v'.Keys == v.Keys
  {
    match ParsePut(statement, tsName)
    case Row(keys, values, ts) => IndexColumns(v, keys, values, ts, offset, 0)
    case _ => v
  }

  /** The index of a list of statements. */
  function IndexLog(v0: View, tsName: Bytes, log: seq<Bytes>): (v: View)
    ensures v.Keys == v0.Keys
  {
    if log == [] then v0
    else IndexStatement(IndexLog(v0, tsName, log[..|log| - 1]), tsName, log[|log| - 1], |log| - 1)
  }

  // ---------- what the index means ----------

  predicate ColumnAt(keys: seq<Bytes>, values: seq<Bytes>, i: nat, key: Bytes, value: Bytes) {
    i < |keys| && i < |values| && keys[i] == key && values[i] == value
  }

  /** The statement gives `key` the value `value` at `ts`. */
  predicate Carries(statement: Bytes, tsName: Bytes, key: Bytes, ts: nat, value: Bytes) {
    var row := ParsePut(statement, tsName);
    row.Row? && row.ts == ts && exists i :: 0 <= i < |row.keys| && ColumnAt(row.keys, row.values, i, key, value)
  }

  predicate ColumnFrom(keys: seq<Bytes>, values: seq<Bytes>, i: nat, key: Bytes, value: Bytes) {
    exists j :: i <= j < |keys| && ColumnAt(keys, values, j, key, value)
  }

  lemma RecordedHolds(v: View, k: Bytes, t: nat, x: Bytes, offset: nat, key: Bytes, ts: nat, value: Bytes)
    ensures Holds(Recorded(v, k, t, x, offset), key, ts, value)
       <==> Holds(v, key, ts, value) || (k in v && k == key && t == ts && x == value)
    ensures Holds(Recorded(v, k, t, x, offset), key, ts, value)
        ==> Lookup(Recorded(v, k, t, x, offset), key, ts, value)
            == if Holds(v, key, ts, value) then Lookup(v, key, ts, value) else offset
  {
  }

  lemma ColumnStep(keys: seq<Bytes>, values: seq<Bytes>, i: nat, key: Bytes, value: Bytes)
    ensures ColumnFrom(keys, values, i, key, value)
       <==> ColumnAt(keys, values, i, key, value) || ColumnFrom(keys, values, i + 1, key, value)
    ensures i >= |keys| || i >= |values| ==> !ColumnFrom(keys, values, i, key, value)
  {
    if ColumnFrom(keys, values, i, key, value) && !ColumnAt(keys, values, i, key, value) {
      var j :| i <= j < |keys| && ColumnAt(keys, values, j, key, value);
      assert i + 1 <= j;
    }
  }

  lemma {:induction false} ColumnsHold(v: View, keys: seq<Bytes>, values: seq<Bytes>, t: nat, offset: nat, i: nat,
                                       key: Bytes, ts: nat, value: Bytes)
    requires i <= |keys|
    ensures var v' := IndexColumns(v, keys, values, t, offset, i);
            && (Holds(v', key, ts, value)
                <==> Holds(v, key, ts, value) || (key in v && t == ts && ColumnFrom(keys, values, i, key, value)))
            && (Holds(v', key, ts, value)
                ==> Lookup(v', key, ts, value)
                    == if Holds(v, key, ts, value) then Lookup(v, key, ts, value) else offset)
    decreases |keys| - i
  {
    hide Holds, Lookup, Recorded, ColumnFrom;
    ColumnStep(keys, values, i, key, value);
    if i < |keys| {
      if keys[i] !in v {
        ColumnsHold(v, keys, values, t, offset, i + 1, key, ts, value);
      } else if i < |values| {
        var v1 := Recorded(v, keys[i], t, values[i], offset);
        RecordedHolds(v, keys[i], t, values[i], offset, key, ts, value);
        ColumnsHold(v1, keys, values, t, offset, i + 1, key, ts, value);
      }
    }
  }

  lemma StatementHolds(v: View, tsName: Bytes, statement: Bytes, offset: nat, key: Bytes, ts: nat, value: Bytes)
    ensures var v' := IndexStatement(v, tsName, statement, offset);
            && (Holds(v', key, ts, value)
                <==> Holds(v, key, ts, value) || (key in v && Carries(statement, tsName, key, ts, value)))
            && (Holds(v', key, ts, value)
                ==> Lookup(v', key, ts, value)
                    == if Holds(v, key, ts, value) then Lookup(v, key, ts, value) else offset)
  {
    hide Holds, Lookup, ParsePut, IndexColumns;
    match ParsePut(statement, tsName)
    case Row(keys, values, t) => ColumnsHold(v, keys, values, t, offset, 0, key, ts, value);
    case _ =>
  }

  /** `o` is the first statement of `log` that carries the entry. */
  ghost predicate Earliest(log: seq<Bytes>, tsName: Bytes, key: Bytes, ts: nat, value: Bytes, o: nat) {
    && o < |log| && Carries(log[o], tsName, key, ts, value)
    && forall i :: 0 <= i < o ==> !Carries(log[i], tsName, key, ts, value)
  }

  /** The index of a list of statements maps every entry of an indexed key to the first
      statement that carries it, and nothing else. */
  lemma {:induction false} FirstWriteWins(v0: View, tsName: Bytes, log: seq<Bytes>, key: Bytes, ts: nat, value: Bytes)
    requires forall k :: k in v0 ==> v0[k] == map[]
    ensures var v := IndexLog(v0, tsName, log);
            && (Holds(v, key, ts, value)
                <==> key in v0 && exists i :: 0 <= i < |log| && Carries(log[i], tsName, key, ts, value))
            && (Holds(v, key, ts, value) ==> Earliest(log, tsName, key, ts, value, Lookup(v, key, ts, value)))
    decreases |log|
  {
    hide Carries, IndexStatement;
    if log == [] {
      assert !Holds(v0, key, ts, value);
    } else {
      hide Holds, Lookup;
      var n := |log| - 1;
      var v := IndexLog(v0, tsName, log[..n]);
      FirstWriteWins(v0, tsName, log[..n], key, ts, value);
      StatementHolds(v, tsName, log[n], n, key, ts, value);
      assert forall i :: 0 <= i < n ==> log[..n][i] == log[i];
    }
  }
}
