/** Python 3.11's exception table (slipcover/bytecode.py, class
    `ExceptionTableEntry`, lines 210-262).  Each entry is four big-endian
    varints: start, length and handler target in argument units, then the
    stack depth and lasti flag packed in `other`; the first byte of each
    entry carries the 0x80 mark. */
module ExceptionTable {
  import opened Numeric
  import opened Wrappers
  import opened Profile
  import opened Instruction
  import opened Varint
  import opened Splice

  /** The protected byte range `[start, end)` and its handler. */
  datatype Entry = Entry(start: int, end: int, target: int, other: int)

  predicate Covers(e: Entry, offset: int)
  {
    e.start <= offset < e.end
  }

  /** `ExceptionTableEntry.adjust`: a start at the insertion point moves
      (code inserted in front of a protected range is not protected), an end
      or target there does not. */
  function Adjust(e: Entry, insertOffset: int, insertLength: int): (r: Entry)
    ensures r.start == if insertOffset <= e.start then e.start + insertLength else e.start
    ensures r.end == if insertOffset < e.end then e.end + insertLength else e.end
    ensures r.target == if insertOffset < e.target then e.target + insertLength else e.target
    ensures r.other == e.other
  {
    e.(start := if insertOffset <= e.start then e.start + insertLength else e.start,
       end := if insertOffset < e.end then e.end + insertLength else e.end,
       target := if insertOffset < e.target then e.target + insertLength else e.target)
  }

  /** Every instruction already in the code keeps its protection: the entry
      covers an old offset exactly when the adjusted entry covers where that
      offset moved. */
  lemma AdjustKeepsOffsets(e: Entry, insertOffset: int, insertLength: nat, offset: int)
    ensures Covers(e, offset) <==> Covers(Adjust(e, insertOffset, insertLength), Moved(offset, insertOffset, insertLength))
  {
  }

  /** Inserted code is protected exactly when it is inserted strictly inside
      the range. */
  lemma AdjustInserted(e: Entry, insertOffset: int, insertLength: nat, offset: int)
    requires insertOffset <= offset < insertOffset + insertLength
    ensures Covers(Adjust(e, insertOffset, insertLength), offset) <==> e.start < insertOffset < e.end
  {
  }

  /** A non-empty range stays non-empty, and grows by the inserted length
      exactly when the insertion is strictly inside it. */
  lemma AdjustNonEmpty(e: Entry, insertOffset: int, insertLength: nat)
    requires e.start < e.end
    ensures Adjust(e, insertOffset, insertLength).start < Adjust(e, insertOffset, insertLength).end
    ensures Adjust(e, insertOffset, insertLength).end - Adjust(e, insertOffset, insertLength).start ==
              e.end - e.start + (if e.start < insertOffset < e.end then insertLength else 0)
  {
  }

  /** An empty range at the insertion point is turned inside out: its start
      moves past its end, by the inserted length. */
  lemma AdjustEmptyRange(e: Entry, insertOffset: int, insertLength: nat)
    requires e.start == e.end == insertOffset && insertLength > 0
    ensures Adjust(e, insertOffset, insertLength).start == e.start + insertLength
    ensures Adjust(e, insertOffset, insertLength).end == e.end
    ensures Adjust(e, insertOffset, insertLength).start > Adjust(e, insertOffset, insertLength).end
  {
  }

  /** Where `replace_global_with_const` puts an offset of the code when it
      rewrites the `length` bytes at `at` into `length + change` bytes: the
      bytes after the rewritten instruction move by the change, the rest
      stay. */
  function Replaced(offset: int, at: int, length: int, change: int): int
  {
    if offset >= at + length then offset + change else offset
  }

  /** `replace_global_with_const` adjusts each entry with `adjust`, as for an
      insertion at the rewritten instruction.  An entry whose range starts at
      that instruction then has its start moved by the change: when the
      replacement is shorter the range takes in code before it that it did
      not protect, and when it is longer the rewritten instruction's first
      byte leaves the range. */
  lemma ReplaceAtStartAsWritten(e: Entry, at: int, length: int, change: int)
    requires e.start == at < e.end && length > 0 && length + change > 0
    ensures change < 0 ==>
              !Covers(e, at + change) && Covers(Adjust(e, at, change), Replaced(at + change, at, length, change))
    ensures change > 0 ==> Covers(e, at) && !Covers(Adjust(e, at, change), Replaced(at, at, length, change))
  {
  }

  /** On Python 3.11 a LOAD_GLOBAL with its five cache words is twelve
      bytes, and the PUSH_NULL and LOAD_CONST replacing it four: a `try`
      block protecting bytes 12 to 24 is moved back to start at byte 4, and
      now protects byte 6, which the rewrite left where it was. */
  lemma ReplaceAtStartExample()
    ensures Adjust(Entry(12, 24, 40, 0), 12, -8) == Entry(4, 16, 32, 0)
    ensures Replaced(6, 12, 12, -8) == 6
    ensures !Covers(Entry(12, 24, 40, 0), 6) && Covers(Adjust(Entry(12, 24, 40, 0), 12, -8), 6)
  {
  }

  /** The adjustment a replacement needs: the new instruction takes the
      place, and the protection, of the one it replaces, so only offsets
      strictly after `at` move. */
  function AdjustReplaced(e: Entry, at: int, change: int): (r: Entry)
    ensures r.other == e.other
  {
    e.(start := if e.start > at then e.start + change else e.start,
       end := if e.end > at then e.end + change else e.end,
       target := if e.target > at then e.target + change else e.target)
  }

  /** With that adjustment every entry whose boundaries are not strictly
      inside the rewritten instruction protects exactly the rewritten
      offsets of what it protected, an entry starting at the instruction
      included, and its handler lands where the rewrite puts it. */
  lemma AdjustReplacedKeepsOffsets(e: Entry, at: int, length: int, change: int, offset: int)
    requires length > 0 && length + change > 0
    requires !(at < e.start < at + length) && !(at < e.end < at + length) && !(at < offset < at + length)
    ensures Covers(e, offset) <==> Covers(AdjustReplaced(e, at, change), Replaced(offset, at, length, change))
    ensures !(at < e.target < at + length) ==> AdjustReplaced(e, at, change).target == Replaced(e.target, at, length, change)
  {
  }

  /** `adjust` as written fails that property on the example above. */
  lemma AdjustMissesReplacement()
    ensures var e := Entry(12, 24, 40, 0);
            Covers(e, 6) != Covers(Adjust(e, 12, -8), Replaced(6, 12, 12, -8))
    ensures var e := Entry(12, 24, 40, 0);
            Covers(e, 6) == Covers(AdjustReplaced(e, 12, -8), Replaced(6, 12, 12, -8))
  {
  }

  /** What `offset2branch` asserts of the three offsets it converts. */
  predicate EntryAligned(p: Profile, e: Entry)
  {
    Aligned(p, e.start) && Aligned(p, e.end - e.start) && Aligned(p, e.target)
  }

  predicate AllAligned(p: Profile, entries: seq<Entry>)
  {
    forall i :: 0 <= i < |entries| ==> EntryAligned(p, entries[i])
  }

  /** The source's loop `for e in self.ex_table: e.adjust(...)`, the
      element-wise map `Branches.AdjustAll` is for branches. */
  function AdjustAll(entries: seq<Entry>, insertOffset: int, insertLength: int): (r: seq<Entry>)
    ensures |r| == |entries|
    ensures forall i :: 0 <= i < |r| ==> r[i] == Adjust(entries[i], insertOffset, insertLength)
  {
    if entries == [] then []
    else [Adjust(entries[0], insertOffset, insertLength)] + AdjustAll(entries[1..], insertOffset, insertLength)
  }

  /** Shifting by a whole number of argument units keeps every offset the
      table stores convertible. */
  lemma AdjustAllAligned(p: Profile, entries: seq<Entry>, insertOffset: int, insertLength: int)
    requires AllAligned(p, entries) && Aligned(p, insertLength)
    ensures AllAligned(p, AdjustAll(entries, insertOffset, insertLength))
  {
    var r := AdjustAll(entries, insertOffset, insertLength);
    forall i | 0 <= i < |r|
      ensures EntryAligned(p, r[i])
    {
      AdjustAligned(p, entries[i], insertOffset, insertLength);
    }
  }

  lemma AdjustAligned(p: Profile, e: Entry, insertOffset: int, insertLength: int)
    requires EntryAligned(p, e) && Aligned(p, insertLength)
    ensures EntryAligned(p, Adjust(e, insertOffset, insertLength))
  {
    var r := Adjust(e, insertOffset, insertLength);
    AlignedShift(p, e.start, insertLength);
    AlignedShift(p, e.target, insertLength);
    AlignedShift(p, e.end - e.start, insertLength);
    assert r.end - r.start == e.end - e.start || r.end - r.start == e.end - e.start + insertLength
        || r.end - r.start == e.end - e.start - insertLength;
  }

  /** Big-endian varints back to back, the first one marked if
      `markFirst`. */
  function WriteAll(values: seq<int>, markFirst: bool): (r: seq<Byte>)
    ensures |r| >= |values|
    ensures values != [] ==> (r[0] >= 0x80 <==> markFirst)
  {
    if values == [] then [] else WriteVarintBe(values[0], markFirst) + WriteAll(values[1..], false)
  }

  /** The number of varints in one entry. */
  const FieldCount: nat := 4

  /** The four numbers of one entry, as `make_exceptiontable` writes them. */
  function Fields(p: Profile, e: Entry): (r: seq<int>)
    requires EntryAligned(p, e)
    ensures |r| == FieldCount
  {
    [Offset2Branch(p, e.start), Offset2Branch(p, e.end - e.start), Offset2Branch(p, e.target), e.other]
  }

  /** One entry of `make_exceptiontable`. */
  function EncodeEntry(p: Profile, e: Entry): (r: seq<Byte>)
    requires EntryAligned(p, e)
    ensures |r| >= 4 && r[0] >= 0x80
  {
    WriteAll(Fields(p, e), true)
  }

  /** `make_exceptiontable`: the entries' encodings, in order. */
  function MakeExceptionTable(p: Profile, entries: seq<Entry>): (r: seq<Byte>)
    requires AllAligned(p, entries)
    ensures |r| >= 4 * |entries|
  {
    if entries == [] then [] else EncodeEntry(p, entries[0]) + MakeExceptionTable(p, entries[1..])
  }

  /** `n` calls of `read_varint_be`; `None` where one would raise
      `StopIteration`. */
  function ReadAll(table: seq<Byte>, n: nat): (r: Option<(seq<int>, seq<Byte>)>)
    ensures r.Some? ==> |r.value.0| == n && |r.value.1| <= |table|
    ensures r.Some? ==> forall i :: 0 <= i < n ==> r.value.0[i] >= 0
    ensures r.Some? && n > 0 ==> |r.value.1| < |table|
    decreases n
  {
    if n == 0 then Some(([], table))
    else
      match ReadVarintBe(table)
      case None => None
      case Some((v, t)) =>
        match ReadAll(t, n - 1)
        case None => None
        case Some((vs, u)) => Some(([v] + vs, u))
  }

  /** One pass of `from_code`'s loop: four varints, the first three scaled
      back to byte offsets. */
  function ReadEntry(p: Profile, table: seq<Byte>): (r: Option<(Entry, seq<Byte>)>)
    ensures r.Some? ==> |r.value.1| < |table|
  {
    match ReadAll(table, FieldCount)
    case None => None
    case Some((vs, rest)) =>
      var start := Branch2Offset(p, vs[0]);
      Some((Entry(start, start + Branch2Offset(p, vs[1]), Branch2Offset(p, vs[2]), vs[3]), rest))
  }

  /** `ExceptionTableEntry.from_code` over the table's bytes: entries are
      read until the input runs out, and an incomplete last entry is
      dropped. */
  function FromTable(p: Profile, table: seq<Byte>): (r: seq<Entry>)
    ensures forall i :: 0 <= i < |r| ==> r[i].start >= 0 && r[i].end >= r[i].start && r[i].target >= 0 && r[i].other >= 0
    ensures AllAligned(p, r)
    decreases |table|
  {
    match ReadEntry(p, table)
    case None => []
    case Some((e, rest)) => [e] + FromTable(p, rest)
  }

  /** Entries the table round-trips: aligned, with non-negative start,
      length, target and `other`. */
  predicate Representable(p: Profile, e: Entry)
  {
    e.start >= 0 && e.end >= e.start && e.target >= 0 && e.other >= 0
  }

  predicate AllRepresentable(p: Profile, entries: seq<Entry>)
  {
    AllAligned(p, entries) && forall i :: 0 <= i < |entries| ==> Representable(p, entries[i])
  }

  lemma ReadAllCons(table: seq<Byte>, n: nat, v: nat, t: seq<Byte>, vs: seq<int>, u: seq<Byte>)
    requires n > 0 && ReadVarintBe(table) == Some((v, t)) && ReadAll(t, n - 1) == Some((vs, u))
    ensures ReadAll(table, n) == Some(([v] + vs, u))
  {
  }

  lemma {:induction false} ReadAllRoundTrip(values: seq<int>, markFirst: bool, rest: seq<Byte>)
    requires forall i :: 0 <= i < |values| ==> values[i] >= 0
    ensures ReadAll(WriteAll(values, markFirst) + rest, |values|) == Some((values, rest))
    decreases |values|
  {
    if values != [] {
      var v := values[0];
      var vs := values[1..];
      var w := WriteVarintBe(v, markFirst);
      var tail := WriteAll(vs, false) + rest;
      WriteAllCons(values, markFirst, rest);
      WriteVarintBeRoundTrip(v, markFirst, tail);
      ReadAllRoundTrip(vs, false, rest);
      ReadAllCons(w + tail, |values|, v, tail, vs, rest);
      ConsSplit(values);
    } else {
      assert WriteAll(values, markFirst) + rest == rest;
    }
  }

  lemma ConsSplit<T>(s: seq<T>)
    requires s != []
    ensures [s[0]] + s[1..] == s
  {
  }

  lemma WriteAllCons(values: seq<int>, markFirst: bool, rest: seq<Byte>)
    requires values != []
    ensures WriteAll(values, markFirst) + rest
         == WriteVarintBe(values[0], markFirst) + (WriteAll(values[1..], false) + rest)
  {
  }

  lemma ReadEntryRoundTrip(p: Profile, e: Entry, rest: seq<Byte>)
    requires EntryAligned(p, e) && Representable(p, e)
    ensures ReadEntry(p, EncodeEntry(p, e) + rest) == Some((e, rest))
  {
    ReadAllRoundTrip(Fields(p, e), true, rest);
  }

  lemma FromTableCons(p: Profile, table: seq<Byte>, e: Entry, rest: seq<Byte>)
    requires ReadEntry(p, table) == Some((e, rest))
    ensures FromTable(p, table) == [e] + FromTable(p, rest)
  {
  }

  lemma AllRepresentableTail(p: Profile, entries: seq<Entry>)
    requires entries != [] && AllRepresentable(p, entries)
    ensures EntryAligned(p, entries[0]) && Representable(p, entries[0])
    ensures AllRepresentable(p, entries[1..])
  {
    forall i | 0 <= i < |entries[1..]|
      ensures EntryAligned(p, entries[1..][i]) && Representable(p, entries[1..][i])
    {
      assert entries[1..][i] == entries[i + 1];
    }
  }

  /** One encoded entry in front of any bytes reads back as that entry. */
  lemma FromTableEntry(p: Profile, e: Entry, t: seq<Byte>)
    requires EntryAligned(p, e) && Representable(p, e)
    ensures FromTable(p, EncodeEntry(p, e) + t) == [e] + FromTable(p, t)
  {
    ReadEntryRoundTrip(p, e, t);
    FromTableCons(p, EncodeEntry(p, e) + t, e, t);
  }

  lemma MakeExceptionTableCons(p: Profile, entries: seq<Entry>, tail: seq<Byte>)
    requires entries != [] && AllAligned(p, entries)
    ensures AllAligned(p, entries[1..])
    ensures MakeExceptionTable(p, entries) + tail ==
              EncodeEntry(p, entries[0]) + (MakeExceptionTable(p, entries[1..]) + tail)
  {
    assert forall i :: 0 <= i < |entries[1..]| ==> entries[1..][i] == entries[i + 1];
  }

  /** Reading a table that starts with encoded entries gives those entries
      back, followed by whatever the rest of the table reads as. */
  lemma {:induction false} FromTableAppend(p: Profile, entries: seq<Entry>, tail: seq<Byte>)
    requires AllRepresentable(p, entries)
    ensures FromTable(p, MakeExceptionTable(p, entries) + tail) == entries + FromTable(p, tail)
    decreases |entries|
  {
    if entries == [] {
      assert MakeExceptionTable(p, entries) + tail == tail;
    } else {
      var rest := entries[1..];
      AllRepresentableTail(p, entries);
      MakeExceptionTableCons(p, entries, tail);
      var t := MakeExceptionTable(p, rest) + tail;
      FromTableEntry(p, entries[0], t);
      FromTableAppend(p, rest, tail);
      ConsAppend(entries, rest, FromTable(p, tail));
    }
  }

  lemma ConsAppend<T>(s: seq<T>, rest: seq<T>, x: seq<T>)
    requires s != [] && rest == s[1..]
    ensures [s[0]] + (rest + x) == s + x
  {
    assert s == [s[0]] + rest;
  }

  /** `from_code` inverts `make_exceptiontable`. */
  lemma MakeExceptionTableRoundTrip(p: Profile, entries: seq<Entry>)
    requires AllRepresentable(p, entries)
    ensures FromTable(p, MakeExceptionTable(p, entries)) == entries
  {
    FromTableAppend(p, entries, []);
    assert MakeExceptionTable(p, entries) + [] == MakeExceptionTable(p, entries);
  }

  /** Varints cut short anywhere read as nothing. */
  lemma {:induction false} ReadAllTruncated(values: seq<int>, markFirst: bool, k: nat)
    requires forall i :: 0 <= i < |values| ==> values[i] >= 0
    requires k < |WriteAll(values, markFirst)|
    ensures ReadAll(WriteAll(values, markFirst)[..k], |values|) == None
    decreases |values|
  {
    var w := WriteVarintBe(values[0], markFirst);
    var more := WriteAll(values[1..], false);
    var cut := WriteAll(values, markFirst)[..k];
    if k < |w| {
      assert cut == w[..k];
      WriteVarintBeTruncated(values[0], markFirst, k);
    } else {
      assert cut == w + more[..k - |w|];
      WriteVarintBeRoundTrip(values[0], markFirst, more[..k - |w|]);
      ReadAllTruncated(values[1..], false, k - |w|);
    }
  }

  /** An entry cut short anywhere reads as nothing: `from_code` drops an
      incomplete last entry. */
  lemma TruncatedEntryDropped(p: Profile, e: Entry, k: nat)
    requires EntryAligned(p, e) && Representable(p, e)
    requires k < |EncodeEntry(p, e)|
    ensures FromTable(p, EncodeEntry(p, e)[..k]) == []
  {
    ReadAllTruncated(Fields(p, e), true, k);
  }

  /** The number of marked (>= 0x80) bytes. */
  function MarkedCount(s: seq<Byte>): nat
  {
    if s == [] then 0 else (if s[0] >= 0x80 then 1 else 0) + MarkedCount(s[1..])
  }

  lemma {:induction false} MarkedCountAppend(a: seq<Byte>, b: seq<Byte>)
    ensures MarkedCount(a + b) == MarkedCount(a) + MarkedCount(b)
    decreases |a|
  {
    if a == [] {
      assert a + b == b;
    } else {
      assert (a + b)[0] == a[0];
      assert (a + b)[1..] == a[1..] + b;
      MarkedCountAppend(a[1..], b);
    }
  }

  lemma {:induction false} MarkedCountUnmarked(s: seq<Byte>)
    requires forall i :: 0 <= i < |s| ==> s[i] < 0x80
    ensures MarkedCount(s) == 0
    decreases |s|
  {
    if s != [] {
      MarkedCountUnmarked(s[1..]);
    }
  }

  lemma {:induction false} MarkedCountWriteAll(values: seq<int>, markFirst: bool)
    ensures MarkedCount(WriteAll(values, markFirst)) == if markFirst && values != [] then 1 else 0
    decreases |values|
  {
    if values != [] {
      var w := WriteVarintBe(values[0], markFirst);
      MarkedCountUnmarked(w[1..]);
      MarkedCountWriteAll(values[1..], false);
      MarkedCountAppend(w, WriteAll(values[1..], false));
    }
  }

  /** Exactly one marked byte per entry, its first: the mark CPython uses
      to find where entries begin. */
  lemma {:induction false} MarkedPerEntry(p: Profile, entries: seq<Entry>)
    requires AllAligned(p, entries)
    ensures MarkedCount(MakeExceptionTable(p, entries)) == |entries|
    decreases |entries|
  {
    if entries != [] {
      MarkedCountWriteAll(Fields(p, entries[0]), true);
      MarkedCountAppend(EncodeEntry(p, entries[0]), MakeExceptionTable(p, entries[1..]));
      MarkedPerEntry(p, entries[1..]);
    }
  }
}
