/** Python 3.11's location table, as far as line numbers go
    (slipcover/bytecode.py, `LineEntry.make_positions`, lines 383-422).
    Each entry covers 1 to 8 code units of 2 bytes; its first byte is
    `0x80 | (code << 3) | (units - 1)`.  Code 15 means no line; code 13
    means a line without column information, its delta from the previous
    line following as a signed varint. */
module Positions {
  import opened Numeric
  import opened Wrappers
  import opened Varint
  import opened Lines

  const NoLineCode := 15
  const NoColumnsCode := 13

  /** The first byte of an entry.  (The or-ed fields do not overlap, so
      `|` is `+`.) */
  function EntryHead(code: int, units: int): (r: Byte)
    requires 0 <= code < 16 && 1 <= units <= 8
    ensures r >= 0x80 && (r / 8) % 16 == code && r % 8 == units - 1
  {
    0x80 + code * 8 + units - 1
  }

  /** The `while bytecodes > 0` loop of an entry without a line. */
  function NoLineEntries(units: int): (r: seq<Byte>)
    decreases units
  {
    if units <= 0 then []
    else [EntryHead(NoLineCode, if units > 8 then 8 else units)] + NoLineEntries(units - 8)
  }

  /** The same loop for a numbered line, given the encoded line delta: the
      delta goes with the first entry, the encoded 0 with the others. */
  function NumberedEntries(units: int, delta: seq<Byte>): (r: seq<Byte>)
    decreases units
  {
    if units <= 0 then []
    else [EntryHead(NoColumnsCode, if units > 8 then 8 else units)] + delta + NumberedEntries(units - 8, ZeroDelta)
  }

  /** `append_svarint(0)`: the delta of every entry of a line after its
      first. */
  const ZeroDelta: seq<Byte> := [0]

  lemma ZeroDeltaEncodes()
    ensures AppendSvarint(0) == ZeroDelta
  {
  }

  /** What one entry contributes: its bytes and the `prev_end` and
      `prev_number` it leaves for the next. */
  datatype Step = Step(bytes: seq<Byte>, end: int, number: int)

  /** One pass of `make_positions`'s loop.  As written, `prev_number`
      takes the line's number even when the line covers no code unit and
      so emits no entry carrying its delta; otherwise it keeps the last
      number actually emitted.  Offsets are halved with Python's floor
      division. */
  function EncodeEntry(prevEnd: int, prevNumber: int, l: LineEntry, asWritten: bool): (r: Step)
    ensures r.end == l.end
    ensures l.number.None? ==> r.number == prevNumber
  {
    if l.number.None? then Step(NoLineEntries((l.end - prevEnd) / 2), l.end, prevNumber)
    else
      var gap := if prevEnd < l.start then NoLineEntries((l.start - prevEnd) / 2) else [];
      var units := (l.end - l.start) / 2;
      var number := if asWritten || units > 0 then l.number.value else prevNumber;
      Step(gap + NumberedEntries(units, AppendSvarint(l.number.value - prevNumber)), l.end, number)
  }

  function Encode(prevEnd: int, prevNumber: int, lines: seq<LineEntry>, asWritten: bool): seq<Byte>
    decreases |lines|
  {
    if lines == [] then []
    else
      var step := EncodeEntry(prevEnd, prevNumber, lines[0], asWritten);
      step.bytes + Encode(step.end, step.number, lines[1..], asWritten)
  }

  /** `make_positions` exactly as the source writes it. */
  function MakePositionsAsWritten(firstLineNo: int, lines: seq<LineEntry>): (r: seq<Byte>)
    ensures NoEmptyLines(lines) ==> r == MakePositions(firstLineNo, lines)
  {
    AsWrittenTable(firstLineNo, lines);
    Encode(0, firstLineNo, lines, true)
  }

  /** The source's encoder agrees with the corrected one from the start of
      the table when no numbered line is empty. */
  lemma {:induction false} AsWrittenTable(firstLineNo: int, lines: seq<LineEntry>)
    ensures NoEmptyLines(lines) ==> Encode(0, firstLineNo, lines, true) == Encode(0, firstLineNo, lines, false)
  {
    if NoEmptyLines(lines) {
      AsWrittenAgrees(0, firstLineNo, lines);
    }
  }

  /** `make_positions` with the line delta of an empty line carried over to
      the next line. */
  function MakePositions(firstLineNo: int, lines: seq<LineEntry>): seq<Byte>
  {
    Encode(0, firstLineNo, lines, false)
  }

  /** Reference decoder: CPython 3.11's location-table walk, for the two
      entry kinds `make_positions` emits.  The first entry ending after
      `offset` holds it.  An entry's code sits in bits 3-6 of its first
      byte, so code 15 is the bytes 0xF8-0xFF and code 13 the bytes
      0xE8-0xEF; the low three bits are the unit count less one. */
  function LineAt(table: seq<Byte>, end: int, line: int, offset: int): Option<int>
    decreases |table|
  {
    if table == [] then None
    else if table[0] >= 0xF8 then
      var newEnd := end + 2 * (table[0] - 0xF8 + 1);
      if newEnd > offset then None else LineAt(table[1..], newEnd, line, offset)
    else if 0xE8 <= table[0] < 0xF0 then
      var newEnd := end + 2 * (table[0] - 0xE8 + 1);
      match ReadSvarintLe(table[1..])
      case None => None
      case Some((delta, rest)) =>
        if newEnd > offset then Some(line + delta) else LineAt(rest, newEnd, line + delta, offset)
    else None
  }

  /** Entries the table describes exactly, from `prevEnd` on: even offsets,
      a numbered line starting at or after the previous end and not ending
      before it starts, an entry without a line not ending before the
      previous one. */
  predicate Encodable(prevEnd: int, lines: seq<LineEntry>)
    decreases |lines|
  {
    if lines == [] then true
    else
      var l := lines[0];
      && l.start % 2 == 0 && l.end % 2 == 0
      && (if l.number.Some? then prevEnd <= l.start <= l.end else prevEnd <= l.end)
      && Encodable(l.end, lines[1..])
  }

  /** Decoding the first entry, `k` units long and ending at `mid`, of a
      run without a line. */
  lemma NoLineStep(units: int, k: int, rest: seq<Byte>, end: int, mid: int, line: int, offset: int)
    requires units > 0 && k == (if units > 8 then 8 else units) && mid == end + 2 * k
    ensures LineAt(NoLineEntries(units) + rest, end, line, offset) ==
              if offset < mid then None else LineAt(NoLineEntries(units - 8) + rest, mid, line, offset)
  {
    var t := NoLineEntries(units) + rest;
    assert t == [EntryHead(NoLineCode, k)] + (NoLineEntries(units - 8) + rest);
    assert t[0] == EntryHead(NoLineCode, k);
    assert t[1..] == NoLineEntries(units - 8) + rest;
  }

  /** A run without a line ending at `stop` decodes to no line before
      `stop` and leaves the walk at `stop`. */
  lemma {:induction false} NoLineDecode(units: int, rest: seq<Byte>, end: int, stop: int, line: int, offset: int)
    requires end <= offset && stop == end + 2 * Max(units, 0)
    ensures LineAt(NoLineEntries(units) + rest, end, line, offset) ==
              if offset < stop then None else LineAt(rest, stop, line, offset)
    decreases units
  {
    if units > 0 {
      var k := if units > 8 then 8 else units;
      var mid := end + 2 * k;
      NoLineStep(units, k, rest, end, mid, line, offset);
      if mid <= offset {
        if units > 8 {
          NoLineDecode(units - 8, rest, mid, stop, line, offset);
        } else {
          assert NoLineEntries(units - 8) + rest == rest;
        }
      }
    } else {
      assert NoLineEntries(units) + rest == rest;
    }
  }

  /** Decoding the first entry, `k` units long and ending at `mid`, of a
      numbered line's run whose encoded delta `db` reads back as `delta`. */
  lemma NumberedStep(units: int, k: int, db: seq<Byte>, delta: int, rest: seq<Byte>, end: int, mid: int, line: int, offset: int)
    requires units > 0 && k == (if units > 8 then 8 else units) && mid == end + 2 * k
    requires ReadSvarintLe(db + (NumberedEntries(units - 8, ZeroDelta) + rest)) ==
               Some((delta, NumberedEntries(units - 8, ZeroDelta) + rest))
    ensures LineAt(NumberedEntries(units, db) + rest, end, line, offset) ==
              if offset < mid then Some(line + delta)
              else LineAt(NumberedEntries(units - 8, ZeroDelta) + rest, mid, line + delta, offset)
  {
    var after := NumberedEntries(units - 8, ZeroDelta) + rest;
    var t := NumberedEntries(units, db) + rest;
    assert t == [EntryHead(NoColumnsCode, k)] + (db + after);
    assert t[0] == EntryHead(NoColumnsCode, k);
    assert t[1..] == db + after;
  }

  /** The entries after a numbered line's first carry delta 0: up to
      `stop` they keep the line, and the walk resumes at `stop`. */
  lemma {:induction false} ZeroRunDecode(units: int, rest: seq<Byte>, end: int, stop: int, line: int, offset: int)
    requires units > 0 && end <= offset && stop == end + 2 * units
    ensures LineAt(NumberedEntries(units, ZeroDelta) + rest, end, line, offset) ==
              if offset < stop then Some(line) else LineAt(rest, stop, line, offset)
    decreases units
  {
    var k := if units > 8 then 8 else units;
    var mid := end + 2 * k;
    assert ReadSvarintLe(ZeroDelta + (NumberedEntries(units - 8, ZeroDelta) + rest)) ==
             Some((0, NumberedEntries(units - 8, ZeroDelta) + rest));
    NumberedStep(units, k, ZeroDelta, 0, rest, end, mid, line, offset);
    if mid <= offset {
      if units > 8 {
        ZeroRunDecode(units - 8, rest, mid, stop, line, offset);
      } else {
        assert NumberedEntries(units - 8, ZeroDelta) + rest == rest;
      }
    }
  }

  /** A numbered line's run ending at `stop` decodes to the line before
      `stop` and leaves the walk at `stop` with the line's number. */
  lemma NumberedDecode(units: int, db: seq<Byte>, delta: int, rest: seq<Byte>, end: int, stop: int, line: int, offset: int)
    requires units > 0 && end <= offset && stop == end + 2 * units
    requires ReadSvarintLe(db + (NumberedEntries(units - 8, ZeroDelta) + rest)) ==
               Some((delta, NumberedEntries(units - 8, ZeroDelta) + rest))
    ensures LineAt(NumberedEntries(units, db) + rest, end, line, offset) ==
              if offset < stop then Some(line + delta) else LineAt(rest, stop, line + delta, offset)
  {
    var k := if units > 8 then 8 else units;
    var mid := end + 2 * k;
    NumberedStep(units, k, db, delta, rest, end, mid, line, offset);
    if mid <= offset {
      var after := NumberedEntries(units - 8, ZeroDelta) + rest;
      if units > 8 {
        ZeroRunDecode(units - 8, rest, mid, stop, line + delta, offset);
        assert LineAt(after, mid, line + delta, offset) ==
                 if offset < stop then Some(line + delta) else LineAt(rest, stop, line + delta, offset);
      } else {
        assert after == rest && mid == stop;
      }
    }
  }

  /** Before `prevEnd` no numbered entry of an encodable list covers an
      offset. */
  lemma {:induction false} NoLineBefore(prevEnd: int, lines: seq<LineEntry>, offset: int)
    requires Encodable(prevEnd, lines) && offset < prevEnd
    ensures LineOf(lines, offset) == None
    decreases |lines|
  {
    if lines != [] {
      NoLineBefore(lines[0].end, lines[1..], offset);
    }
  }

  /** Decoding one numbered entry: `g` units without a line up to `start`,
      then `units` units of the line up to `stop`, whose encoded delta `db`
      reads back as `delta`; later offsets are decoded from `stop` onwards. */
  lemma NumberedEntryDecode(g: int, units: int, db: seq<Byte>, delta: int, rest: seq<Byte>,
                            prevEnd: int, start: int, stop: int, prevNumber: int, offset: int)
    requires g >= 0 && units >= 0 && start == prevEnd + 2 * g && stop == start + 2 * units && prevEnd <= offset
    requires units > 0 ==> ReadSvarintLe(db + (NumberedEntries(units - 8, ZeroDelta) + rest)) ==
                             Some((delta, NumberedEntries(units - 8, ZeroDelta) + rest))
    ensures LineAt(NoLineEntries(g) + (NumberedEntries(units, db) + rest), prevEnd, prevNumber, offset) ==
              if offset < start then None
              else if offset < stop then Some(prevNumber + delta)
              else LineAt(rest, stop, if units > 0 then prevNumber + delta else prevNumber, offset)
  {
    var own := NumberedEntries(units, db) + rest;
    NoLineDecode(g, own, prevEnd, start, prevNumber, offset);
    if offset >= start {
      if units > 0 {
        NumberedDecode(units, db, delta, rest, start, stop, prevNumber, offset);
      } else {
        assert own == rest;
      }
    }
  }

  /** The bytes of a numbered entry: its gap, then its own run. */
  lemma NumberedEntryBytes(prevEnd: int, prevNumber: int, l: LineEntry, rest: seq<Byte>)
    requires l.number.Some? && prevEnd <= l.start
    ensures EncodeEntry(prevEnd, prevNumber, l, false).bytes + rest ==
              NoLineEntries((l.start - prevEnd) / 2) +
              (NumberedEntries((l.end - l.start) / 2, AppendSvarint(l.number.value - prevNumber)) + rest)
  {
    assert (if prevEnd < l.start then NoLineEntries((l.start - prevEnd) / 2) else []) == NoLineEntries((l.start - prevEnd) / 2);
  }

  /** Decoding one numbered entry as `make_positions` writes it. */
  lemma NumberedEntryStep(prevEnd: int, prevNumber: int, l: LineEntry, rest: seq<Byte>, offset: int)
    requires l.number.Some? && prevEnd <= l.start <= l.end && prevEnd <= offset
    requires prevEnd % 2 == 0 && l.start % 2 == 0 && l.end % 2 == 0
    ensures var step := EncodeEntry(prevEnd, prevNumber, l, false);
            LineAt(step.bytes + rest, prevEnd, prevNumber, offset) ==
              if offset < l.start then None
              else if offset < l.end then l.number
              else LineAt(rest, l.end, step.number, offset)
  {
    var units := (l.end - l.start) / 2;
    var g := (l.start - prevEnd) / 2;
    var delta := l.number.value - prevNumber;
    assert 2 * units == l.end - l.start && 2 * g == l.start - prevEnd;
    NumberedEntryBytes(prevEnd, prevNumber, l, rest);
    AppendSvarintRoundTrip(delta, NumberedEntries(units - 8, ZeroDelta) + rest);
    NumberedEntryDecode(g, units, AppendSvarint(delta), delta, rest, prevEnd, l.start, l.end, prevNumber, offset);
  }

  lemma {:induction false} EncodeDecode(prevEnd: int, prevNumber: int, lines: seq<LineEntry>, offset: int)
    requires Encodable(prevEnd, lines) && prevEnd <= offset && prevEnd % 2 == 0
    ensures LineAt(Encode(prevEnd, prevNumber, lines, false), prevEnd, prevNumber, offset) == LineOf(lines, offset)
    decreases |lines|
  {
    if lines != [] {
      var l := lines[0];
      var step := EncodeEntry(prevEnd, prevNumber, l, false);
      var rest := Encode(l.end, step.number, lines[1..], false);
      assert Encode(prevEnd, prevNumber, lines, false) == step.bytes + rest;
      if l.number.None? {
        assert step.bytes == NoLineEntries((l.end - prevEnd) / 2);
        NoLineDecode((l.end - prevEnd) / 2, rest, prevEnd, l.end, prevNumber, offset);
      } else {
        NumberedEntryStep(prevEnd, prevNumber, l, rest, offset);
      }
      if offset < l.end {
        NoLineBefore(l.end, lines[1..], offset);
      } else {
        EncodeDecode(l.end, step.number, lines[1..], offset);
      }
    }
  }

  /** With the delta carried over, the table maps every offset to the line
      of the entry covering it, and offsets no numbered entry covers to no
      line, as CPython 3.11 reads it. */
  lemma MakePositionsCorrect(firstLineNo: int, lines: seq<LineEntry>, offset: nat)
    requires Encodable(0, lines)
    ensures LineAt(MakePositions(firstLineNo, lines), 0, firstLineNo, offset) == LineOf(lines, offset)
  {
    EncodeDecode(0, firstLineNo, lines, offset);
  }

  /** Lines that each cover at least one code unit. */
  predicate NoEmptyLines(lines: seq<LineEntry>)
  {
    forall i :: 0 <= i < |lines| ==> lines[i].number.Some? ==> (lines[i].end - lines[i].start) / 2 > 0
  }

  /** The two agree unless a numbered line covers no code unit; entries
      built by `LineEntry.from_code` cover at least one. */
  lemma {:induction false} AsWrittenAgrees(prevEnd: int, prevNumber: int, lines: seq<LineEntry>)
    requires NoEmptyLines(lines)
    ensures Encode(prevEnd, prevNumber, lines, true) == Encode(prevEnd, prevNumber, lines, false)
    decreases |lines|
  {
    if lines != [] {
      var step := EncodeEntry(prevEnd, prevNumber, lines[0], false);
      assert EncodeEntry(prevEnd, prevNumber, lines[0], true) == step;
      assert NoEmptyLines(lines[1..]) by {
        forall i | 0 <= i < |lines[1..]|
          ensures lines[1..][i].number.Some? ==> (lines[1..][i].end - lines[1..][i].start) / 2 > 0
        {
          assert lines[1..][i] == lines[i + 1];
        }
      }
      AsWrittenAgrees(step.end, step.number, lines[1..]);
    }
  }

  /** As written, an empty line's delta is lost: with line 5 covering no
      code before line 6 at offset 0, the table says line 2 for offset 0. */
  lemma EmptyLineBugExample()
    ensures var lines := [LineEntry(0, 0, Some(5)), LineEntry(0, 2, Some(6))];
            && MakePositionsAsWritten(1, lines) == [0xE8, 2]
            && LineAt(MakePositionsAsWritten(1, lines), 0, 1, 0) == Some(2)
            && LineOf(lines, 0) == Some(6)
  {
    var lines := [LineEntry(0, 0, Some(5)), LineEntry(0, 2, Some(6))];
    assert EncodeEntry(0, 1, lines[0], true) == Step([], 0, 5);
    assert AppendSvarint(1) == [2];
    assert NumberedEntries(1, [2]) == [0xE8, 2];
    assert EncodeEntry(0, 5, lines[1], true) == Step([0xE8, 2], 2, 6);
    assert lines[1..][0] == lines[1];
    assert lines[1..][1..] == [];
    assert Encode(0, 5, lines[1..], true) == [0xE8, 2];
    assert ReadSvarintLe([2]) == Some((1, []));
  }

  function AddUnits(o: Option<int>, n: int): Option<int>
  {
    match o
    case None => None
    case Some(u) => Some(u + n)
  }

  lemma AddUnitsTwice(o: Option<int>, a: int, b: int)
    ensures AddUnits(AddUnits(o, a), b) == AddUnits(o, b + a)
  {
  }

  /** The code units a table covers, walking it entry by entry as
      `LineAt` does, or `None` if some entry is neither code 15 (first byte
      0xF8-0xFF, that is `EntryHead(15, n)`) nor code 13 (0xE8-0xEF, that
      is `EntryHead(13, n)`) followed by a signed varint.  Each entry adds
      its `n`, the low three bits of its first byte plus one. */
  function Units(table: seq<Byte>): Option<int>
    decreases |table|
  {
    if table == [] then Some(0)
    else if table[0] >= 0xF8 then AddUnits(Units(table[1..]), table[0] - 0xF8 + 1)
    else if 0xE8 <= table[0] < 0xF0 then
      match ReadSvarintLe(table[1..])
      case None => None
      case Some((_, rest)) => AddUnits(Units(rest), table[0] - 0xE8 + 1)
    else None
  }

  /** The first entry, `k` units long, of a run without a line. */
  lemma NoLineUnitsStep(units: int, k: int, rest: seq<Byte>)
    requires units > 0 && k == (if units > 8 then 8 else units)
    ensures Units(NoLineEntries(units) + rest) == AddUnits(Units(NoLineEntries(units - 8) + rest), k)
  {
    var t := NoLineEntries(units) + rest;
    assert t == [EntryHead(NoLineCode, k)] + (NoLineEntries(units - 8) + rest);
    assert t[0] == EntryHead(NoLineCode, k) && t[0] - 0xF8 + 1 == k;
    assert t[1..] == NoLineEntries(units - 8) + rest;
  }

  /** A run without a line is well formed and covers its units. */
  lemma {:induction false} NoLineUnits(units: int, rest: seq<Byte>)
    ensures Units(NoLineEntries(units) + rest) == AddUnits(Units(rest), Max(units, 0))
    decreases units
  {
    if units > 0 {
      var k := if units > 8 then 8 else units;
      NoLineUnitsStep(units, k, rest);
      NoLineUnits(units - 8, rest);
      AddUnitsTwice(Units(rest), Max(units - 8, 0), k);
      assert k + Max(units - 8, 0) == units;
    } else {
      assert NoLineEntries(units) + rest == rest;
    }
  }

  /** A numbered line's run whose encoded delta `db` reads back is well
      formed and covers its units. */
  lemma {:induction false} NumberedUnits(units: int, db: seq<Byte>, rest: seq<Byte>)
    requires units > 0
    requires ReadSvarintLe(db + (NumberedEntries(units - 8, ZeroDelta) + rest)).Some?
    requires ReadSvarintLe(db + (NumberedEntries(units - 8, ZeroDelta) + rest)).value.1 ==
               NumberedEntries(units - 8, ZeroDelta) + rest
    ensures Units(NumberedEntries(units, db) + rest) == AddUnits(Units(rest), units)
    decreases units
  {
    var k := if units > 8 then 8 else units;
    var after := NumberedEntries(units - 8, ZeroDelta) + rest;
    var t := NumberedEntries(units, db) + rest;
    assert t == [EntryHead(NoColumnsCode, k)] + (db + after);
    assert t[1..] == db + after;
    if units > 8 {
      assert ReadSvarintLe(ZeroDelta + (NumberedEntries(units - 16, ZeroDelta) + rest)) ==
               Some((0, NumberedEntries(units - 16, ZeroDelta) + rest));
      NumberedUnits(units - 8, ZeroDelta, rest);
    } else {
      assert after == rest;
    }
  }

  lemma HalvesAdd(b: int, a: int, c: int)
    requires a % 2 == 0 && b % 2 == 0
    ensures (a - b) / 2 + (c - a) / 2 == (c - b) / 2
  {
  }

  /** A numbered line's own run covers its units. */
  lemma OwnUnits(units: int, delta: int, rest: seq<Byte>)
    requires units >= 0
    ensures Units(NumberedEntries(units, AppendSvarint(delta)) + rest) == AddUnits(Units(rest), units)
  {
    if units > 0 {
      AppendSvarintRoundTrip(delta, NumberedEntries(units - 8, ZeroDelta) + rest);
      NumberedUnits(units, AppendSvarint(delta), rest);
    } else {
      assert NumberedEntries(units, AppendSvarint(delta)) + rest == rest;
    }
  }

  /** A gap of `g` units without a line followed by a numbered line's own
      run of `units` units covers both. */
  lemma GapAndRunUnits(g: int, units: int, delta: int, rest: seq<Byte>)
    requires g >= 0 && units >= 0
    ensures Units(NoLineEntries(g) + (NumberedEntries(units, AppendSvarint(delta)) + rest)) ==
              AddUnits(Units(rest), g + units)
  {
    var own := NumberedEntries(units, AppendSvarint(delta)) + rest;
    OwnUnits(units, delta, rest);
    NoLineUnits(g, own);
    AddUnitsTwice(Units(rest), units, g);
  }

  /** A numbered entry as `make_positions` writes it covers the units from
      the previous end to its own. */
  lemma NumberedEntryUnits(prevEnd: int, prevNumber: int, l: LineEntry, rest: seq<Byte>)
    requires l.number.Some? && prevEnd <= l.start <= l.end
    requires prevEnd % 2 == 0 && l.start % 2 == 0
    ensures Units(EncodeEntry(prevEnd, prevNumber, l, false).bytes + rest) ==
              AddUnits(Units(rest), (l.end - prevEnd) / 2)
  {
    var units := (l.end - l.start) / 2;
    var g := (l.start - prevEnd) / 2;
    var delta := l.number.value - prevNumber;
    calc {
      Units(EncodeEntry(prevEnd, prevNumber, l, false).bytes + rest);
      { NumberedEntryBytes(prevEnd, prevNumber, l, rest); }
      Units(NoLineEntries(g) + (NumberedEntries(units, AppendSvarint(delta)) + rest));
      { GapAndRunUnits(g, units, delta, rest); }
      AddUnits(Units(rest), g + units);
      { HalvesAdd(prevEnd, l.start, l.end); }
      AddUnits(Units(rest), (l.end - prevEnd) / 2);
    }
  }

  /** One entry as `make_positions` writes it covers the units from the
      previous end to its own. */
  lemma EntryUnits(prevEnd: int, prevNumber: int, l: LineEntry, rest: seq<Byte>)
    requires prevEnd % 2 == 0 && l.start % 2 == 0
    requires if l.number.Some? then prevEnd <= l.start <= l.end else prevEnd <= l.end
    ensures Units(EncodeEntry(prevEnd, prevNumber, l, false).bytes + rest) ==
              AddUnits(Units(rest), (l.end - prevEnd) / 2)
  {
    if l.number.None? {
      NoLineUnits((l.end - prevEnd) / 2, rest);
    } else {
      NumberedEntryUnits(prevEnd, prevNumber, l, rest);
    }
  }

  lemma {:induction false} EncodeUnits(prevEnd: int, prevNumber: int, lines: seq<LineEntry>)
    requires Encodable(prevEnd, lines) && prevEnd % 2 == 0
    ensures Units(Encode(prevEnd, prevNumber, lines, false)) ==
              Some(if lines == [] then 0 else (lines[|lines| - 1].end - prevEnd) / 2)
    decreases |lines|
  {
    if lines != [] {
      var l := lines[0];
      var rest := Encode(l.end, EncodeEntry(prevEnd, prevNumber, l, false).number, lines[1..], false);
      var t := if |lines| == 1 then 0 else (lines[|lines| - 1].end - l.end) / 2;
      EncodeUnits(l.end, EncodeEntry(prevEnd, prevNumber, l, false).number, lines[1..]);
      if |lines| > 1 {
        assert lines[1..][|lines[1..]| - 1] == lines[|lines| - 1];
        assert Units(rest) == Some(t);
        HalvesAdd(prevEnd, l.end, lines[|lines| - 1].end);
      } else {
        assert lines[1..] == [];
        assert Units(rest) == Some(t);
      }
      EntryThenUnits(prevEnd, prevNumber, l, rest, t);
      EncodeCons(prevEnd, prevNumber, lines);
      assert Units(Encode(prevEnd, prevNumber, lines, false)) == Some(t + (l.end - prevEnd) / 2);
    } else {
      assert Encode(prevEnd, prevNumber, lines, false) == [];
    }
  }

  /** An entry in front of a table of `t` units adds its own. */
  lemma {:induction false} EntryThenUnits(prevEnd: int, prevNumber: int, l: LineEntry, rest: seq<Byte>, t: int)
    requires prevEnd % 2 == 0 && l.start % 2 == 0
    requires if l.number.Some? then prevEnd <= l.start <= l.end else prevEnd <= l.end
    requires Units(rest) == Some(t)
    ensures Units(EncodeEntry(prevEnd, prevNumber, l, false).bytes + rest) == Some(t + (l.end - prevEnd) / 2)
  {
    EntryUnits(prevEnd, prevNumber, l, rest);
  }

  lemma {:induction false} EncodeCons(prevEnd: int, prevNumber: int, lines: seq<LineEntry>)
    requires lines != []
    ensures Encode(prevEnd, prevNumber, lines, false) ==
              EncodeEntry(prevEnd, prevNumber, lines[0], false).bytes
              + Encode(lines[0].end, EncodeEntry(prevEnd, prevNumber, lines[0], false).number, lines[1..], false)
  {
  }

  /** `make_positions` emits only entries of code 15 and code 13 with a
      delta, and their unit counts add up to the end of the last entry,
      halved. */
  lemma MakePositionsUnits(firstLineNo: int, lines: seq<LineEntry>)
    requires Encodable(0, lines)
    ensures Units(MakePositions(firstLineNo, lines)) ==
              Some(if lines == [] then 0 else lines[|lines| - 1].end / 2)
  {
    EncodeUnits(0, firstLineNo, lines);
  }
}
