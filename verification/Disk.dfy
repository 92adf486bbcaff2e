/** The file of statements: ibdb/src/storage/disk.h. */
module Disk {
  import opened Coding

  /** The bytes in front of a message: its offset and its size. */
  const PREFIX: nat := 12

  /** Sizes are read back into a signed 32-bit variable, and a byte more is allocated. */
  const MAX_SIZE: nat := 0x7fff_ffff

  /** A message that was read; one that the visible part of the file does not hold wholly; or a
      size for which no buffer can be allocated. */
  datatype Reading = Whole(message: Bytes) | CutOff | Oversized

  // ---------- the layout ----------

  function Message(offset: nat, m: Bytes): (b: Bytes)
    ensures |b| == PREFIX + |m|
  {
    Fixed64(Word64(offset)) + Fixed32(Word32(|m|)) + m
  }

  /** The file that holds a list of statements. */
  function FileOf(log: seq<Bytes>): Bytes {
    if log == [] then [] else FileOf(log[..|log| - 1]) + Message(|log| - 1, log[|log| - 1])
  }

  /** Where message `i` starts; for `i == |log|`, the length of the file. */
  function Start(log: seq<Bytes>, i: nat): nat
    requires i <= |log|
  {
    if i == 0 then 0 else Start(log, i - 1) + PREFIX + |log[i - 1]|
  }

  /** What fits the 32-bit fields of the format: every message starts below 2^32, and every
      size is below 2^31 - 1. */
  predicate Fits(log: seq<Bytes>) {
    forall i :: 0 <= i < |log| ==> Start(log, i) < TWO32 && |log[i]| < MAX_SIZE
  }

  lemma {:induction false} StartOfPrefix(log: seq<Bytes>, more: seq<Bytes>, i: nat)
    requires i <= |log|
    ensures Start(log + more, i) == Start(log, i)
    decreases i
  {
    if i > 0 { StartOfPrefix(log, more, i - 1); }
  }

  lemma {:induction false} StartGrows(log: seq<Bytes>, i: nat, j: nat)
    requires i <= j <= |log|
    ensures Start(log, i) + PREFIX * (j - i) <= Start(log, j)
    decreases j
  {
    if i < j { StartGrows(log, i, j - 1); }
  }

  lemma {:induction false} FileLength(log: seq<Bytes>)
    ensures |FileOf(log)| == Start(log, |log|)
    decreases |log|
  {
    hide Message;
    if log != [] {
      var rest := log[..|log| - 1];
      FileLength(rest);
      StartOfPrefix(rest, [log[|log| - 1]], |rest|);
      assert rest + [log[|log| - 1]] == log;
    }
  }

  lemma FileAppend(log: seq<Bytes>, m: Bytes)
    ensures FileOf(log + [m]) == FileOf(log) + Message(|log|, m)
  {
    hide Message;
    assert (log + [m])[..|log|] == log;
  }

  /** The bytes between two starts are the message. */
  lemma {:induction false} MessageStored(log: seq<Bytes>, i: nat)
    requires i < |log|
    ensures Start(log, i + 1) <= |FileOf(log)|
    ensures FileOf(log)[Start(log, i)..Start(log, i + 1)] == Message(i, log[i])
    decreases |log|
  {
    hide Message;
    var rest, last := log[..|log| - 1], log[|log| - 1];
    assert rest + [last] == log;
    FileLength(rest);
    FileLength(log);
    StartOfPrefix(rest, [last], |rest|);
    if i < |rest| {
      StartOfPrefix(rest, [last], i);
      StartOfPrefix(rest, [last], i + 1);
      MessageStored(rest, i);
    }
  }

  /** The three fields of the message at `pos`. */
  function OffsetAt(data: Bytes, pos: nat): nat
    requires pos + 8 <= |data|
  {
    Number64(DecodeFixed64(data[pos..pos + 8]))
  }

  function SizeAt(data: Bytes, pos: nat): nat
    requires pos + PREFIX <= |data|
  {
    Number32(DecodeFixed32(data[pos + 8..pos + PREFIX]))
  }

  /** The bytes of a message: eight of the offset, four of the size, and the text. */
  lemma MessageBytes()
    ensures Message(1, [0x61, 0x62]) == [1, 0, 0, 0, 0, 0, 0, 0, 2, 0, 0, 0, 0x61, 0x62]
  {
    SmallWords();
    hide Word64, Word32;
    assert Fixed64(1) == [1, 0, 0, 0, 0, 0, 0, 0] && Fixed32(2) == [2, 0, 0, 0];
  }

  lemma SmallWords()
    ensures Word64(1) == 1 && Word32(2) == 2
  {
    SmallBytes();
    DecodeSmall();
    hide ToByte, DecodeFixed64, DecodeFixed32;
    ZeroDigits(7);
    ZeroDigits(3);
    assert Digits(1, 8) == [1] + Digits(0, 7) == [1, 0, 0, 0, 0, 0, 0, 0];
    assert Digits(2, 4) == [2] + Digits(0, 3) == [2, 0, 0, 0];
  }

  lemma SmallBytes()
    ensures ToByte(0) == 0 && ToByte(1) == 1 && ToByte(2) == 2
  {
  }

  lemma DecodeSmall()
    ensures DecodeFixed64([1, 0, 0, 0, 0, 0, 0, 0]) == 1 && DecodeFixed32([2, 0, 0, 0]) == 2
  {
  }

  lemma {:induction false} ZeroDigits(k: nat)
    ensures Digits(0, k) == seq(k, _ => 0)
  {
    SmallBytes();
    hide ToByte;
    if k > 0 { ZeroDigits(k - 1); }
  }

  /** The message at `pos`, as far as the data goes. */
  function MessageAt(data: Bytes, pos: nat): (r: Reading)
    ensures r.Whole? ==> pos + PREFIX + |r.message| <= |data| && r.message == data[pos + PREFIX..][..|r.message|]
  {
    if pos + PREFIX > |data| then CutOff
    else if SizeAt(data, pos) >= MAX_SIZE then Oversized
    else if pos + PREFIX + SizeAt(data, pos) > |data| then CutOff
    else Whole(data[pos + PREFIX..pos + PREFIX + SizeAt(data, pos)])
  }

  /** A message decodes to what was encoded. */
  lemma MessageDecodes(offset: nat, m: Bytes)
    requires offset < TWO64 && |m| < TWO32
    ensures OffsetAt(Message(offset, m), 0) == offset && SizeAt(Message(offset, m), 0) == |m|
    ensures Message(offset, m)[PREFIX..] == m
  {
    var b := Message(offset, m);
    hide Fixed64, Fixed32, Word64, Word32, Number64, Number32, DecodeFixed64, DecodeFixed32;
    assert b[..8] == Fixed64(Word64(offset)) == Fixed64(Word64(offset)) + [];
    assert b[8..PREFIX] == Fixed32(Word32(|m|)) == Fixed32(Word32(|m|)) + [];
    RoundTrip64(Word64(offset), []);
    RoundTrip32(Word32(|m|), []);
    NumberOfWord64(offset);
    NumberOfWord32(|m|);
  }

  /** `data` from `pos` on is the message, as far as the data goes. */
  predicate Reads(data: Bytes, pos: nat, offset: nat, m: Bytes) {
    && (pos + 8 <= |data| ==> OffsetAt(data, pos) == offset)
    && (pos + PREFIX <= |data| ==> SizeAt(data, pos) == |m|)
    && (pos + PREFIX + |m| <= |data| ==> data[pos + PREFIX..pos + PREFIX + |m|] == m)
  }

  lemma ReadsStored(file: Bytes, data: Bytes, pos: nat, offset: nat, m: Bytes)
    requires data <= file && pos + PREFIX + |m| <= |file| && file[pos..pos + PREFIX + |m|] == Message(offset, m)
    requires offset < TWO64 && |m| < TWO32
    ensures Reads(data, pos, offset, m)
  {
    hide Message, OffsetAt, SizeAt;
    MessageDecodes(offset, m);
    ReadsPrefix(file, data, pos, Message(offset, m));
    if pos + PREFIX + |m| <= |data| { BodyWithin(file, data, pos, Message(offset, m)); }
  }

  lemma BodyWithin(file: Bytes, data: Bytes, pos: nat, b: Bytes)
    requires data <= file && pos + |b| <= |data| && file[pos..pos + |b|] == b && |b| >= PREFIX
    ensures data[pos + PREFIX..pos + |b|] == b[PREFIX..]
  {
    Within(file, data, pos, pos + |b|, b, PREFIX, |b|);
  }

  /** Reading at the start of message `i` finds the message. */
  lemma ReadsMessage(log: seq<Bytes>, i: nat, data: Bytes)
    requires data <= FileOf(log) && i < |log| && i < TWO64 && |log[i]| < TWO32
    ensures Reads(data, Start(log, i), i, log[i])
  {
    hide Message, FileOf, Reads;
    MessageStored(log, i);
    ReadsStored(FileOf(log), data, Start(log, i), i, log[i]);
  }

  lemma ReadsPrefix(file: Bytes, data: Bytes, pos: nat, b: Bytes)
    requires data <= file && pos + |b| <= |file| && file[pos..pos + |b|] == b && |b| >= PREFIX
    ensures pos + 8 <= |data| ==> OffsetAt(data, pos) == OffsetAt(b, 0)
    ensures pos + PREFIX <= |data| ==> SizeAt(data, pos) == SizeAt(b, 0)
  {
    hide Number64, Number32, DecodeFixed64, DecodeFixed32;
    if pos + 8 <= |data| { Within(file, data, pos, pos + |b|, b, 0, 8); }
    if pos + PREFIX <= |data| { Within(file, data, pos, pos + |b|, b, 8, PREFIX); }
  }

  lemma Within(file: Bytes, data: Bytes, pos: nat, end: nat, b: Bytes, from: nat, to: nat)
    requires pos <= end <= |file| && file[pos..end] == b && from <= to <= |b|
    requires data <= file && pos + to <= |data|
    ensures data[pos + from..pos + to] == b[from..to]
  {
    forall k | 0 <= k < to - from ensures data[pos + from..pos + to][k] == b[from..to][k] {
      assert file[pos..end][from + k] == file[pos + from + k] == data[pos + from + k];
    }
  }

  lemma MessageParts(before: Bytes, offset: nat, m: Bytes)
    ensures before + Fixed64(Word64(offset)) + Fixed32(Word32(|m|)) + m == before + Message(offset, m)
  {
    hide Fixed64, Fixed32, Word64, Word32;
    Joined(before, Fixed64(Word64(offset)), Fixed32(Word32(|m|)), m);
  }

  lemma Joined(a: Bytes, b: Bytes, c: Bytes, d: Bytes)
    ensures a + b + c + d == a + (b + c + d)
  {
  }

  // ---------- the file ----------

  /** The log file, open for appending and for reading. Writes go through a buffer, so a reader
      sees a prefix of what was written. */
  class LogFile {
    var contents: Bytes
    var visible: nat
    /** A 32-bit variable. */
    var currentPos: nat

    ghost predicate Valid()
      reads this
    {
      visible <= |contents|
    }

    constructor ()
      ensures Valid() && contents == [] && currentPos == 0
    {
      contents, visible, currentPos := [], 0, 0;
    }

    /** fwrite: any part of what the buffer holds may reach the file. */
    method AppendBytes(data: Bytes)
      requires Valid()
      modifies this
      ensures Valid() && contents == old(contents) + data
      ensures visible >= old(visible) && currentPos == old(currentPos)
    {
      contents := contents + data;
      var seen: nat :| visible <= seen <= |contents|;
      visible := seen;
    }

    /** Append(offset, slice) */
    method Append(offset: nat, slice: Bytes)
      requires Valid()
      modifies this
      ensures Valid() && contents == old(contents) + Message(offset, slice)
      ensures visible >= old(visible) && currentPos == U32(old(currentPos) + PREFIX + |slice|)
    {
      var offsetByte := new bv8[8];
      EncodeFixed64(offsetByte, Word64(offset));
      var sizeByte := new bv8[4];
      EncodeFixed32(sizeByte, Word32(|slice|));
      hide Fixed64, Fixed32, Word64, Word32, Message;
      AppendBytes(offsetByte[..8]);
      AppendBytes(sizeByte[..4]);
      AppendBytes(slice);
      MessageParts(old(contents), offset, slice);
      currentPos := U32(currentPos + PREFIX + |slice|);
    }

    method Sync()
      requires Valid()
      modifies this`visible
      ensures Valid() && visible == |contents|
    {
      visible := |contents|;
    }

    /** What a reader can see. */
    ghost function Data(): Bytes
      requires Valid()
      reads this
    {
      contents[..visible]
    }

    /** At most `n` bytes of the visible part, from `pos`. */
    method Pread(pos: nat, n: nat) returns (r: Bytes)
      requires Valid()
      ensures r == if pos + n <= visible then Data()[pos..pos + n] else if pos <= visible then Data()[pos..] else []
    {
      r := if pos + n <= visible then contents[pos..pos + n] else if pos <= visible then contents[pos..visible] else [];
    }

    method GetMessageOffset(pos: nat) returns (ok: bool, offset: nat)
      requires Valid()
      ensures ok <==> pos + 8 <= visible
      ensures ok ==> offset == OffsetAt(Data(), pos)
    {
      var scratch := Pread(pos, 8);
      ok := |scratch| == 8;
      offset := if ok then Number64(DecodeFixed64(scratch)) else 0;
    }

    method GetMessageSize(pos: nat) returns (ok: bool, size: nat)
      requires Valid()
      ensures ok <==> pos + PREFIX <= visible
      ensures ok ==> size == SizeAt(Data(), pos)
    {
      var scratch := Pread(pos + 8, 4);
      ok := |scratch| == 4;
      size := if ok then Number32(DecodeFixed32(scratch)) else 0;
    }

    method GetMessage(pos: nat) returns (r: Reading)
      requires Valid()
      ensures r == MessageAt(Data(), pos)
    {
      var scratch := Pread(pos + 8, 4);
      if |scratch| != 4 {
        return CutOff;
      }
      var size := Number32(DecodeFixed32(scratch));
      if size >= MAX_SIZE {
        return Oversized;
      }
      var message := Pread(pos + PREFIX, size);
      r := if |message| == size then Whole(message) else CutOff;
    }
  }
}
