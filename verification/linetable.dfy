/** Python 3.10's line table (slipcover/bytecode.py,
    `LineEntry.make_linetable`, lines 336-380): byte pairs `(length, line
    delta)`, each describing the next range of code; a line delta of -128
    (0x80) marks a range that belongs to no line. */
module Linetable {
  import opened Numeric
  import opened Wrappers
  import opened Lines

  /** `-128 & 0xFF`: the line delta of a range without a line. */
  const NoLine: Byte := 128

  /** The `while gap > 254` loop and the pair after it: ranges without a
      line covering `gap` bytes. */
  function GapSteps(gap: nat): (r: seq<Byte>)
    ensures |r| % 2 == 0 && |r| >= 2
    decreases gap
  {
    if gap > 254 then [254, NoLine] + GapSteps(gap - 254) else [gap, NoLine]
  }

  /** The value `gap` holds after that loop: the length of the last pair. */
  function GapRemainder(gap: nat): (r: nat)
    ensures r <= 254 && r <= gap
    ensures gap <= 254 ==> r == gap
    ensures gap > 0 ==> r > 0
    decreases gap
  {
    if gap > 254 then GapRemainder(gap - 254) else gap
  }

  /** The two `delta_number` loops: zero-length ranges moving the line by
      127 at a time until what is left fits a signed byte other than -128. */
  function NumberSteps(dn: int): (r: seq<Byte>)
    ensures |r| % 2 == 0
    decreases Abs(dn)
  {
    if dn > 127 then [0, 127] + NumberSteps(dn - 127)
    else if dn < -127 then [0, LowByte(-127)] + NumberSteps(dn + 127)
    else []
  }

  /** The line delta left after `NumberSteps`. */
  function NumberRemainder(dn: int): (r: int)
    ensures -127 <= r <= 127
    ensures -127 <= dn <= 127 ==> r == dn
    decreases Abs(dn)
  {
    if dn > 127 then NumberRemainder(dn - 127)
    else if dn < -127 then NumberRemainder(dn + 127)
    else dn
  }

  /** The `while delta_end > 254` loop and the final pair: the line's own
      ranges, the line delta on the first of them. */
  function EndSteps(de: nat, dn: int): (r: seq<Byte>)
    requires -127 <= dn <= 127
    ensures |r| % 2 == 0 && |r| >= 2
    decreases de
  {
    if de > 254 then [254, LowByte(dn)] + EndSteps(de - 254, 0) else [de, LowByte(dn)]
  }

  function Prepend(prefix: seq<Byte>, r: Option<seq<Byte>>): Option<seq<Byte>>
  {
    match r
    case None => None
    case Some(rest) => Some(prefix + rest)
  }

  /** What one entry contributes: its bytes and the `prev_end` and
      `prev_number` it leaves for the next. */
  datatype Step = Step(bytes: seq<Byte>, end: int, number: int)

  /** An entry the table can describe after `prevEnd`: a numbered line
      starts at or after it and does not end before it starts; an entry
      without a line ends after it. */
  predicate EntryEncodable(prevEnd: int, l: LineEntry)
  {
    if l.number.Some? then prevEnd <= l.start <= l.end else prevEnd < l.end
  }

  predicate Encodable(prevEnd: int, lines: seq<LineEntry>)
    decreases |lines|
  {
    lines == [] || (EntryEncodable(prevEnd, lines[0]) && Encodable(lines[0].end, lines[1..]))
  }

  /** One pass of `make_linetable`'s loop.  `asWritten` selects the
      source's update of `prev_end` after a gap, which adds only what is
      left of the gap after its 254-byte pairs; otherwise the whole gap is
      added.  A negative length makes `bytes()` raise `ValueError`, and an
      entry without a line that leaves no gap reaches `None - prev_number`,
      a `TypeError`: both are `None` here. */
  function EncodeEntry(prevEnd: int, prevNumber: int, l: LineEntry, asWritten: bool): (r: Option<Step>)
    ensures !asWritten ==> (r.Some? <==> EntryEncodable(prevEnd, l))
    ensures r.Some? ==> |r.value.bytes| % 2 == 0
    ensures r.Some? && (l.number.Some? || !asWritten) ==> r.value.end == l.end
    ensures r.Some? ==> r.value.number == if l.number.Some? then l.number.value else prevNumber
  {
    var gap := if l.number.Some? then l.start - prevEnd else l.end - prevEnd;
    if gap < 0 then None
    else
      var gapBytes := if gap > 0 then GapSteps(gap) else [];
      var advanced := prevEnd + if asWritten then GapRemainder(gap) else gap;
      if l.number.None? then
        if gap == 0 then None else Some(Step(gapBytes, advanced, prevNumber))
      else
        var dn := l.number.value - prevNumber;
        var de := l.end - advanced;
        if de < 0 then None
        else Some(Step(gapBytes + (NumberSteps(dn) + EndSteps(de, NumberRemainder(dn))), l.end, l.number.value))
  }

  /** `make_linetable`'s loop from `prevEnd` and `prevNumber` on. */
  function Encode(prevEnd: int, prevNumber: int, lines: seq<LineEntry>, asWritten: bool): (r: Option<seq<Byte>>)
    ensures !asWritten ==> (r.Some? <==> Encodable(prevEnd, lines))
    ensures r.Some? ==> |r.value| % 2 == 0
    decreases |lines|
  {
    if lines == [] then Some([])
    else
      match EncodeEntry(prevEnd, prevNumber, lines[0], asWritten)
      case None => None
      case Some(step) => Prepend(step.bytes, Encode(step.end, step.number, lines[1..], asWritten))
  }

  /** `make_linetable` exactly as the source writes it. */
  function MakeLinetableAsWritten(firstLineNo: int, lines: seq<LineEntry>): (r: Option<seq<Byte>>)
    ensures r.Some? ==> |r.value| % 2 == 0
    ensures Encodable(0, lines) ==> r.Some?
    ensures SmallGaps(0, lines) ==> r == MakeLinetable(firstLineNo, lines)
  {
    AsWrittenTable(firstLineNo, lines);
    Encode(0, firstLineNo, lines, true)
  }

  /** What the source's encoder shares with the corrected one, from the
      start of the table. */
  lemma {:induction false} AsWrittenTable(firstLineNo: int, lines: seq<LineEntry>)
    ensures Encodable(0, lines) ==> Encode(0, firstLineNo, lines, true).Some?
    ensures SmallGaps(0, lines) ==> Encode(0, firstLineNo, lines, true) == Encode(0, firstLineNo, lines, false)
  {
    if SmallGaps(0, lines) {
      AsWrittenAgrees(0, firstLineNo, lines);
    }
    if Encodable(0, lines) {
      AsWrittenEncodes(0, 0, firstLineNo, lines);
    }
  }

  /** `make_linetable` with the whole gap added to `prev_end`. */
  function MakeLinetable(firstLineNo: int, lines: seq<LineEntry>): (r: Option<seq<Byte>>)
    ensures r.Some? <==> Encodable(0, lines)
    ensures r.Some? ==> |r.value| % 2 == 0
  {
    Encode(0, firstLineNo, lines, false)
  }

  /** Reference decoder: CPython 3.10's address-range walk
      (`_PyCode_CheckLineNumber`).  Each pair is the range after the
      previous one; the first range ending after `offset` holds it. */
  function LineAt(table: seq<Byte>, end: int, line: int, offset: int): Option<int>
  {
    if |table| < 2 then None
    else
      var newEnd := end + table[0];
      var newLine := if table[1] == NoLine then line else line + Signed(table[1]);
      if newEnd > offset then (if table[1] == NoLine then None else Some(newLine))
      else LineAt(table[2..], newEnd, newLine, offset)
  }

  lemma {:induction false} GapDecode(gap: nat, rest: seq<Byte>, end: int, line: int, offset: int)
    requires gap > 0 && end <= offset
    ensures LineAt(GapSteps(gap) + rest, end, line, offset) ==
              if offset < end + gap then None else LineAt(rest, end + gap, line, offset)
    decreases gap
  {
    var t := GapSteps(gap) + rest;
    assert t[2..] == (if gap > 254 then GapSteps(gap - 254) + rest else rest);
    if gap > 254 && end + 254 <= offset {
      GapDecode(gap - 254, rest, end + 254, line, offset);
    }
  }

  lemma {:induction false} NumberDecode(dn: int, rest: seq<Byte>, end: int, line: int, offset: int)
    requires end <= offset
    ensures LineAt(NumberSteps(dn) + rest, end, line, offset) ==
              LineAt(rest, end, line + dn - NumberRemainder(dn), offset)
    decreases Abs(dn)
  {
    var t := NumberSteps(dn) + rest;
    if dn > 127 {
      assert t[2..] == NumberSteps(dn - 127) + rest;
      NumberDecode(dn - 127, rest, end, line + 127, offset);
    } else if dn < -127 {
      assert t[2..] == NumberSteps(dn + 127) + rest;
      SignedLowByte(-127);
      NumberDecode(dn + 127, rest, end, line - 127, offset);
    } else {
      assert t == rest;
    }
  }

  lemma {:induction false} EndDecode(de: nat, dn: int, rest: seq<Byte>, end: int, line: int, offset: int)
    requires -127 <= dn <= 127 && end <= offset
    ensures LineAt(EndSteps(de, dn) + rest, end, line, offset) ==
              if offset < end + de then Some(line + dn) else LineAt(rest, end + de, line + dn, offset)
    decreases de
  {
    var t := EndSteps(de, dn) + rest;
    SignedLowByte(dn);
    assert t[2..] == (if de > 254 then EndSteps(de - 254, 0) + rest else rest);
    if de > 254 && end + 254 <= offset {
      EndDecode(de - 254, 0, rest, end + 254, line + dn, offset);
    }
  }

  /** Before `prevEnd` no numbered entry of an encodable list covers an
      offset. */
  lemma {:induction false} NoLineBefore(prevEnd: int, lines: seq<LineEntry>, offset: int)
    requires Encodable(prevEnd, lines) && offset < prevEnd
    ensures LineOf(lines, offset) == None
    decreases |lines|
  {
    if lines != [] {
      NoLineBefore(lines[0].end, lines[1..], offset);
    }
  }

  /** Decoding the gap pairs of an entry without a line: its offsets have
      no line, later ones are decoded from its end onwards. */
  lemma NoneEntryDecode(prevEnd: int, prevNumber: int, l: LineEntry, rest: seq<Byte>, offset: int)
    requires l.number.None? && prevEnd < l.end && prevEnd <= offset
    ensures EncodeEntry(prevEnd, prevNumber, l, false) == Some(Step(GapSteps(l.end - prevEnd), l.end, prevNumber))
    ensures LineAt(GapSteps(l.end - prevEnd) + rest, prevEnd, prevNumber, offset) ==
              if offset < l.end then None else LineAt(rest, l.end, prevNumber, offset)
  {
    GapDecode(l.end - prevEnd, rest, prevEnd, prevNumber, offset);
  }

  /** The bytes of a numbered entry: the gap before it, the number steps
      and its own ranges. */
  function NumberedBytes(prevEnd: int, prevNumber: int, l: LineEntry): seq<Byte>
    requires l.number.Some? && prevEnd <= l.start <= l.end
  {
    var dn := l.number.value - prevNumber;
    (if l.start > prevEnd then GapSteps(l.start - prevEnd) else [])
      + (NumberSteps(dn) + EndSteps(l.end - l.start, NumberRemainder(dn)))
  }

  lemma NumberedEntryBytes(prevEnd: int, prevNumber: int, l: LineEntry)
    requires l.number.Some? && prevEnd <= l.start <= l.end
    ensures EncodeEntry(prevEnd, prevNumber, l, false) == Some(Step(NumberedBytes(prevEnd, prevNumber, l), l.end, l.number.value))
  {
  }

  /** Decoding the number steps and range pairs of a numbered entry
      that starts at `start`. */
  lemma OwnStepsDecode(dn: int, de: nat, rest: seq<Byte>, start: int, prevNumber: int, offset: int)
    requires start <= offset
    ensures LineAt(NumberSteps(dn) + (EndSteps(de, NumberRemainder(dn)) + rest), start, prevNumber, offset) ==
              if offset < start + de then Some(prevNumber + dn) else LineAt(rest, start + de, prevNumber + dn, offset)
  {
    var ends := EndSteps(de, NumberRemainder(dn)) + rest;
    NumberDecode(dn, ends, start, prevNumber, offset);
    EndDecode(de, NumberRemainder(dn), rest, start, prevNumber + dn - NumberRemainder(dn), offset);
  }

  /** The gap pairs before an entry starting `gap` bytes on, if any. */
  function GapPrefix(gap: nat): seq<Byte>
  {
    if gap > 0 then GapSteps(gap) else []
  }

  /** Decoding an optional gap: its offsets have no line, later ones are
      decoded from where it ends. */
  lemma GapPrefixDecode(gap: nat, rest: seq<Byte>, end: int, line: int, offset: int)
    requires end <= offset
    ensures LineAt(GapPrefix(gap) + rest, end, line, offset) ==
              if offset < end + gap then None else LineAt(rest, end + gap, line, offset)
  {
    if gap > 0 {
      GapDecode(gap, rest, end, line, offset);
    } else {
      assert GapPrefix(gap) + rest == rest;
    }
  }

  /** Decoding a numbered entry: no line in the gap before it, its line
      over its own range, and later offsets decoded from its end and line
      onwards. */
  lemma NumberedEntryDecode(prevEnd: int, prevNumber: int, l: LineEntry, rest: seq<Byte>, offset: int)
    requires l.number.Some? && prevEnd <= l.start <= l.end && prevEnd <= offset
    ensures LineAt(NumberedBytes(prevEnd, prevNumber, l) + rest, prevEnd, prevNumber, offset) ==
              if offset < l.start then None
              else if offset < l.end then l.number
              else LineAt(rest, l.end, l.number.value, offset)
  {
    var dn := l.number.value - prevNumber;
    var own := NumberSteps(dn) + EndSteps(l.end - l.start, NumberRemainder(dn));
    var t := NumberedBytes(prevEnd, prevNumber, l) + rest;
    assert NumberedBytes(prevEnd, prevNumber, l) == GapPrefix(l.start - prevEnd) + own;
    assert t == GapPrefix(l.start - prevEnd) + (own + rest);
    GapPrefixDecode(l.start - prevEnd, own + rest, prevEnd, prevNumber, offset);
    if offset < l.start {
      assert LineAt(t, prevEnd, prevNumber, offset) == None;
    } else {
      assert own + rest == NumberSteps(dn) + (EndSteps(l.end - l.start, NumberRemainder(dn)) + rest);
      OwnStepsDecode(dn, l.end - l.start, rest, l.start, prevNumber, offset);
      assert LineAt(t, prevEnd, prevNumber, offset) == LineAt(own + rest, l.start, prevNumber, offset);
    }
  }

  lemma {:induction false} EncodeDecode(prevEnd: int, prevNumber: int, lines: seq<LineEntry>, offset: int)
    requires Encodable(prevEnd, lines) && prevEnd <= offset
    ensures LineAt(Encode(prevEnd, prevNumber, lines, false).value, prevEnd, prevNumber, offset) == LineOf(lines, offset)
    decreases |lines|
  {
    if lines != [] {
      var l := lines[0];
      var step := EncodeEntry(prevEnd, prevNumber, l, false).value;
      var rest := Encode(step.end, step.number, lines[1..], false).value;
      if l.number.None? {
        NoneEntryDecode(prevEnd, prevNumber, l, rest, offset);
      } else {
        NumberedEntryBytes(prevEnd, prevNumber, l);
        NumberedEntryDecode(prevEnd, prevNumber, l, rest, offset);
      }
      if offset < l.end {
        NoLineBefore(l.end, lines[1..], offset);
      } else {
        EncodeDecode(l.end, step.number, lines[1..], offset);
      }
    }
  }

  /** With the whole gap added, the table maps every offset to the line of
      the entry covering it, and offsets no numbered entry covers to no
      line, as CPython 3.10 reads it. */
  lemma MakeLinetableCorrect(firstLineNo: int, lines: seq<LineEntry>, offset: nat)
    requires MakeLinetable(firstLineNo, lines).Some?
    ensures LineAt(MakeLinetable(firstLineNo, lines).value, 0, firstLineNo, offset) == LineOf(lines, offset)
  {
    EncodeDecode(0, firstLineNo, lines, offset);
  }

  /** The gap before an entry: up to a numbered line's start, or over the
      whole of an entry without a line. */
  function Gap(prevEnd: int, l: LineEntry): int
  {
    if l.number.Some? then l.start - prevEnd else l.end - prevEnd
  }

  /** The two agree whenever no gap exceeds 254 bytes, the shape entries
      built by `LineEntry.from_code` from a code object starting at
      offset 0 have when their lines are close. */
  lemma EntryAsWrittenAgrees(prevEnd: int, prevNumber: int, l: LineEntry)
    requires Gap(prevEnd, l) <= 254
    ensures EncodeEntry(prevEnd, prevNumber, l, true) == EncodeEntry(prevEnd, prevNumber, l, false)
  {
  }

  /** Entries with no gap over 254 bytes before any of them. */
  predicate SmallGaps(prevEnd: int, lines: seq<LineEntry>)
    decreases |lines|
  {
    lines == [] || (Gap(prevEnd, lines[0]) <= 254 && SmallGaps(lines[0].end, lines[1..]))
  }

  lemma {:induction false} AsWrittenAgrees(prevEnd: int, prevNumber: int, lines: seq<LineEntry>)
    requires SmallGaps(prevEnd, lines)
    ensures Encode(prevEnd, prevNumber, lines, true) == Encode(prevEnd, prevNumber, lines, false)
    decreases |lines|
  {
    if lines != [] {
      EntryAsWrittenAgrees(prevEnd, prevNumber, lines[0]);
      var step := EncodeEntry(prevEnd, prevNumber, lines[0], false);
      if step.Some? {
        AsWrittenAgrees(lines[0].end, step.value.number, lines[1..]);
      }
    }
  }

  /** The source's encoder builds a table wherever the corrected one does:
      it only ever leaves `prev_end` at or before where the corrected one
      has it, so no gap or line length it computes goes negative. */
  lemma {:induction false} AsWrittenEncodes(prevEndW: int, prevEnd: int, prevNumber: int, lines: seq<LineEntry>)
    requires prevEndW <= prevEnd && Encodable(prevEnd, lines)
    ensures Encode(prevEndW, prevNumber, lines, true).Some?
    decreases |lines|
  {
    if lines != [] {
      var l := lines[0];
      var gap := Gap(prevEndW, l);
      assert gap >= 0 && (l.number.None? ==> gap > 0);
      var step := EncodeEntry(prevEndW, prevNumber, l, true);
      assert step.Some?;
      assert step.value.end <= l.end;
      AsWrittenEncodes(step.value.end, l.end, step.value.number, lines[1..]);
    }
  }

  /** The source's `prev_end += gap` after the gap loop: for a first line
      starting at offset 300, `prev_end` becomes 46, the line's own ranges
      are 254 bytes too long, and offset 302, where line 3 starts, decodes
      as line 2. */
  lemma GapBugExample()
    ensures var lines := [LineEntry(300, 302, Some(2)), LineEntry(302, 304, Some(3))];
            && MakeLinetableAsWritten(1, lines) == Some([254, 128, 46, 128, 254, 1, 2, 0, 2, 1])
            && LineAt(MakeLinetableAsWritten(1, lines).value, 0, 1, 302) == Some(2)
            && LineOf(lines, 302) == Some(3)
  {
    var lines := [LineEntry(300, 302, Some(2)), LineEntry(302, 304, Some(3))];
    assert GapSteps(254) == [254, 128];
    assert GapSteps(300) == [254, 128, 46, 128];
    assert GapRemainder(300) == 46;
    assert NumberSteps(1) == [];
    assert EndSteps(2, 0) == [2, 0];
    assert EndSteps(256, 1) == [254, 1, 2, 0];
    assert EndSteps(2, 1) == [2, 1];
    assert NumberRemainder(1) == 1;
    var first := [254, 128, 46, 128] + ([] + [254, 1, 2, 0]);
    assert first == [254, 128, 46, 128, 254, 1, 2, 0];
    assert EncodeEntry(0, 1, lines[0], true) == Some(Step(first, 302, 2));
    assert [] + [] + [2, 1] == [2, 1];
    assert EncodeEntry(302, 2, lines[1], true) == Some(Step([2, 1], 304, 3));
    assert lines[1..][0] == lines[1];
    assert lines[1..][1..] == [];
    assert [2, 1] + [] == [2, 1];
    assert Encode(304, 3, lines[1..][1..], true) == Some([]);
    assert Encode(302, 2, lines[1..], true) == Some([2, 1]);
    assert Encode(0, 1, lines, true) == Some(first + [2, 1]);
    assert first + [2, 1] == [254, 128, 46, 128, 254, 1, 2, 0, 2, 1];
  }

  /** Every pair of the table advances by at most `m` bytes. */
  predicate LengthsAtMost(t: seq<Byte>, m: int)
  {
    forall i :: 0 <= i < |t| && i % 2 == 0 ==> t[i] <= m
  }

  /** The line deltas of the pairs that belong to a line, read as signed,
      added up; pairs marked `NoLine` do not count. */
  function LineDeltaSum(t: seq<Byte>): int
    decreases |t|
  {
    if |t| < 2 then 0 else (if t[1] == NoLine then 0 else Signed(t[1])) + LineDeltaSum(t[2..])
  }

  /** The number of the last entry with a line, `number` if there is none. */
  function LastNumber(number: int, lines: seq<LineEntry>): int
    decreases |lines|
  {
    if lines == [] then number
    else LastNumber(if lines[0].number.Some? then lines[0].number.value else number, lines[1..])
  }

  lemma {:induction false} ShapeAppend(a: seq<Byte>, b: seq<Byte>)
    requires |a| % 2 == 0
    ensures LengthSum(a + b) == LengthSum(a) + LengthSum(b)
    ensures LineDeltaSum(a + b) == LineDeltaSum(a) + LineDeltaSum(b)
    ensures LengthsAtMost(a, 254) && LengthsAtMost(b, 254) ==> LengthsAtMost(a + b, 254)
    decreases |a|
  {
    LengthSumAppend(a, b);
    if a == [] {
      assert a + b == b;
    } else {
      assert (a + b)[2..] == a[2..] + b;
      ShapeAppend(a[2..], b);
    }
    if LengthsAtMost(a, 254) && LengthsAtMost(b, 254) {
      forall i | 0 <= i < |a + b| && i % 2 == 0
        ensures (a + b)[i] <= 254
      {
        if i >= |a| {
          assert (a + b)[i] == b[i - |a|];
        }
      }
    }
  }

  /** Gap pairs advance by the gap and move no line. */
  lemma {:induction false} GapStepsShape(gap: nat)
    ensures LengthSum(GapSteps(gap)) == gap && LineDeltaSum(GapSteps(gap)) == 0
    ensures LengthsAtMost(GapSteps(gap), 254)
    decreases gap
  {
    if gap > 254 {
      var t := GapSteps(gap);
      assert t == [254, NoLine] + GapSteps(gap - 254);
      GapStepsShape(gap - 254);
      ShapeAppend([254, NoLine], GapSteps(gap - 254));
    }
  }

  /** Number pairs advance by nothing and move the line by all of the
      delta but the remainder left for the line's own first pair. */
  lemma {:induction false} NumberStepsShape(dn: int)
    ensures LengthSum(NumberSteps(dn)) == 0 && LineDeltaSum(NumberSteps(dn)) == dn - NumberRemainder(dn)
    ensures LengthsAtMost(NumberSteps(dn), 254)
    decreases Abs(dn)
  {
    if dn > 127 {
      NumberStepsShape(dn - 127);
      ShapeAppend([0, 127], NumberSteps(dn - 127));
    } else if dn < -127 {
      var down: seq<Byte> := [0, LowByte(-127)];
      assert Signed(LowByte(-127)) == -127 && LowByte(-127) != NoLine;
      NumberStepsShape(dn + 127);
      ShapeAppend(down, NumberSteps(dn + 127));
    }
  }

  /** A line's own pairs advance by its length and carry what is left of
      its delta, which is never -128. */
  lemma {:induction false} EndStepsShape(de: nat, dn: int)
    requires -127 <= dn <= 127
    ensures LengthSum(EndSteps(de, dn)) == de && LineDeltaSum(EndSteps(de, dn)) == dn
    ensures LengthsAtMost(EndSteps(de, dn), 254)
    decreases de
  {
    SignedLowByte(dn);
    var head: seq<Byte> := [if de > 254 then 254 else de, LowByte(dn)];
    assert LowByte(dn) != NoLine;
    if de > 254 {
      EndStepsShape(de - 254, 0);
      ShapeAppend(head, EndSteps(de - 254, 0));
    } else {
      assert EndSteps(de, dn) == head + [];
      ShapeAppend(head, []);
    }
  }

  lemma EntryShape(prevEnd: int, prevNumber: int, l: LineEntry)
    requires EntryEncodable(prevEnd, l)
    ensures var step := EncodeEntry(prevEnd, prevNumber, l, false).value;
            && LengthSum(step.bytes) == l.end - prevEnd
            && LineDeltaSum(step.bytes) == step.number - prevNumber
            && LengthsAtMost(step.bytes, 254)
  {
    if l.number.None? {
      GapStepsShape(l.end - prevEnd);
    } else {
      var dn := l.number.value - prevNumber;
      var gap := GapPrefix(l.start - prevEnd);
      var own := NumberSteps(dn);
      var ends := EndSteps(l.end - l.start, NumberRemainder(dn));
      NumberedEntryBytes(prevEnd, prevNumber, l);
      assert NumberedBytes(prevEnd, prevNumber, l) == gap + (own + ends);
      if l.start > prevEnd {
        GapStepsShape(l.start - prevEnd);
      } else {
        assert LengthsAtMost(gap, 254);
      }
      NumberStepsShape(dn);
      EndStepsShape(l.end - l.start, NumberRemainder(dn));
      ShapeAppend(own, ends);
      ShapeAppend(gap, own + ends);
    }
  }

  lemma {:induction false} EncodeShape(prevEnd: int, prevNumber: int, lines: seq<LineEntry>)
    requires Encodable(prevEnd, lines)
    ensures var t := Encode(prevEnd, prevNumber, lines, false).value;
            && LengthsAtMost(t, 254)
            && LineDeltaSum(t) == LastNumber(prevNumber, lines) - prevNumber
            && (lines != [] ==> LengthSum(t) == lines[|lines| - 1].end - prevEnd)
    decreases |lines|
  {
    if lines != [] {
      var l := lines[0];
      var step := EncodeEntry(prevEnd, prevNumber, l, false).value;
      var rest := Encode(l.end, step.number, lines[1..], false).value;
      assert Encode(prevEnd, prevNumber, lines, false).value == step.bytes + rest;
      EntryShape(prevEnd, prevNumber, l);
      EncodeShape(l.end, step.number, lines[1..]);
      ShapeAppend(step.bytes, rest);
      if |lines| == 1 {
        assert rest == [];
      } else {
        assert lines[1..][|lines| - 2] == lines[|lines| - 1];
      }
    }
  }

  /** The shape of `make_linetable`'s table: no pair advances by more than
      254 bytes, the advances add up to the end of the last entry, and the
      line deltas of the pairs not marked `NoLine` add up to the last line's
      number less `firstlineno`. */
  lemma MakeLinetableShape(firstLineNo: int, lines: seq<LineEntry>)
    requires MakeLinetable(firstLineNo, lines).Some?
    ensures var t := MakeLinetable(firstLineNo, lines).value;
            && LengthsAtMost(t, 254)
            && LineDeltaSum(t) == LastNumber(firstLineNo, lines) - firstLineNo
            && (lines != [] ==> LengthSum(t) == lines[|lines| - 1].end)
  {
    EncodeShape(0, firstLineNo, lines);
  }
}
