/** Python 3.9's line-number table (slipcover/bytecode.py,
    `LineEntry.make_lnotab`, lines 299-333): byte pairs `(start delta,
    line delta)`, the line delta a signed byte.  Deltas too large for one
    pair are split over several, the start first. */
module Lnotab {
  import opened Numeric
  import opened Wrappers
  import opened Lines

  /** The `while delta_start > 255` loop: whole 255-byte start steps. */
  function StartSteps(ds: nat, dn: int): (r: seq<Byte>)
    ensures |r| % 2 == 0
    decreases ds
  {
    if ds > 255 then [255, 0] + StartSteps(ds - 255, dn) else UpSteps(ds, dn)
  }

  /** The `while delta_number > 127` loop: the remaining start delta goes
      with the first step, later steps add no start. */
  function UpSteps(ds: Byte, dn: int): (r: seq<Byte>)
    ensures |r| % 2 == 0
    decreases if dn > 127 then dn else 0
  {
    if dn > 127 then [ds, 127] + UpSteps(0, dn - 127) else DownSteps(ds, dn)
  }

  /** The `while delta_number < -128` loop, then the last pair, which is
      left out when both deltas are 0. */
  function DownSteps(ds: Byte, dn: int): (r: seq<Byte>)
    ensures |r| % 2 == 0
    decreases if dn < -128 then -dn else 0
  {
    if dn < -128 then [ds, LowByte(-128)] + DownSteps(0, dn + 128)
    else if ds != 0 || dn != 0 then [ds, LowByte(dn)]
    else []
  }

  predicate AllNumbered(lines: seq<LineEntry>)
  {
    forall i :: 0 <= i < |lines| ==> lines[i].number.Some?
  }

  /** Line starts that never go back, from `from` on. */
  predicate StartsFrom(from: int, lines: seq<LineEntry>)
  {
    && (lines != [] ==> from <= lines[0].start)
    && forall i :: 1 <= i < |lines| ==> lines[i - 1].start <= lines[i].start
  }

  lemma StartsFromTail(from: int, lines: seq<LineEntry>)
    requires lines != []
    ensures StartsFrom(from, lines) <==> from <= lines[0].start && StartsFrom(lines[0].start, lines[1..])
  {
    var tail := lines[1..];
    if StartsFrom(from, lines) {
      forall i | 1 <= i < |tail|
        ensures tail[i - 1].start <= tail[i].start
      {
        assert tail[i - 1] == lines[i] && tail[i] == lines[i + 1];
      }
    }
    if from <= lines[0].start && StartsFrom(lines[0].start, tail) {
      forall i | 1 <= i < |lines|
        ensures lines[i - 1].start <= lines[i].start
      {
        if i >= 2 {
          assert tail[i - 2] == lines[i - 1] && tail[i - 1] == lines[i];
        }
      }
    }
  }

  lemma AllNumberedTail(lines: seq<LineEntry>)
    requires lines != []
    ensures AllNumbered(lines) <==> lines[0].number.Some? && AllNumbered(lines[1..])
  {
    if lines[0].number.Some? && AllNumbered(lines[1..]) {
      forall i | 1 <= i < |lines|
        ensures lines[i].number.Some?
      {
        assert lines[i] == lines[1..][i - 1];
      }
    }
  }

  /** The body of `make_lnotab`'s loop from `prevStart` and `prevNumber` on.
      A line without a number makes `l.number - prev_number` raise
      `TypeError`; a line starting before its predecessor makes the source
      put a negative start delta into the list, which `bytes()` rejects
      with `ValueError`.  Both are `None` here. */
  function Encode(prevStart: int, prevNumber: int, lines: seq<LineEntry>): (r: Option<seq<Byte>>)
    ensures r.Some? <==> AllNumbered(lines) && StartsFrom(prevStart, lines)
    ensures r.Some? ==> |r.value| % 2 == 0
    decreases |lines|
  {
    if lines == [] then Some([])
    else
      StartsFromTail(prevStart, lines);
      AllNumberedTail(lines);
      var l := lines[0];
      if l.number.None? || l.start < prevStart then None
      else
        match Encode(l.start, l.number.value, lines[1..])
        case None => None
        case Some(rest) => Some(StartSteps(l.start - prevStart, l.number.value - prevNumber) + rest)
  }

  /** `make_lnotab`.  It succeeds exactly when every line has a number and
      the starts never go back. */
  function MakeLnotab(firstLineNo: int, lines: seq<LineEntry>): (r: Option<seq<Byte>>)
    ensures r.Some? <==> AllNumbered(lines) && StartsFrom(0, lines)
    ensures r.Some? ==> |r.value| % 2 == 0
  {
    Encode(0, firstLineNo, lines)
  }

  /** Reference decoder: CPython 3.9's `PyCode_Addr2Line`.  Pairs are
      applied while the running start stays at or below `offset`; an odd
      trailing byte is ignored. */
  function LineAt(table: seq<Byte>, start: int, line: int, offset: int): int
  {
    if |table| < 2 || start + table[0] > offset then line
    else LineAt(table[2..], start + table[0], line + Signed(table[1]), offset)
  }

  /** The line the entries assign to `offset`: that of the last entry
      starting at or before it, `number` before the first. */
  function LineInEffect(number: int, lines: seq<LineEntry>, offset: int): int
    requires AllNumbered(lines)
    decreases |lines|
  {
    if lines == [] || lines[0].start > offset then number
    else LineInEffect(lines[0].number.value, lines[1..], offset)
  }

  lemma LineAtBefore(table: seq<Byte>, start: int, line: int, offset: int)
    requires offset < start
    ensures LineAt(table, start, line, offset) == line
  {
  }

  /** Decoding the pairs of one entry: an offset before the entry's start
      keeps the old line, any later offset is decoded from the entry's
      start and line onwards. */
  lemma {:induction false} DownStepsDecode(ds: Byte, dn: int, rest: seq<Byte>, start: int, line: int, offset: int)
    requires dn <= 127
    ensures LineAt(DownSteps(ds, dn) + rest, start, line, offset) ==
              if offset < start + ds then line else LineAt(rest, start + ds, line + dn, offset)
    decreases if dn < -128 then -dn else 0
  {
    var t := DownSteps(ds, dn) + rest;
    if dn < -128 {
      assert t[2..] == DownSteps(0, dn + 128) + rest;
      DownStepsDecode(0, dn + 128, rest, start + ds, line - 128, offset);
    } else if ds != 0 || dn != 0 {
      SignedLowByte(dn);
      assert t[2..] == rest;
    } else {
      assert t == rest;
      if offset < start {
        LineAtBefore(rest, start, line, offset);
      }
    }
  }

  lemma {:induction false} UpStepsDecode(ds: Byte, dn: int, rest: seq<Byte>, start: int, line: int, offset: int)
    ensures LineAt(UpSteps(ds, dn) + rest, start, line, offset) ==
              if offset < start + ds then line else LineAt(rest, start + ds, line + dn, offset)
    decreases if dn > 127 then dn else 0
  {
    if dn > 127 {
      var t := UpSteps(ds, dn) + rest;
      assert t[2..] == UpSteps(0, dn - 127) + rest;
      UpStepsDecode(0, dn - 127, rest, start + ds, line + 127, offset);
    } else {
      DownStepsDecode(ds, dn, rest, start, line, offset);
    }
  }

  lemma {:induction false} StartStepsDecode(ds: nat, dn: int, rest: seq<Byte>, start: int, line: int, offset: int)
    ensures LineAt(StartSteps(ds, dn) + rest, start, line, offset) ==
              if offset < start + ds then line else LineAt(rest, start + ds, line + dn, offset)
    decreases ds
  {
    if ds > 255 {
      var t := StartSteps(ds, dn) + rest;
      assert t[2..] == StartSteps(ds - 255, dn) + rest;
      StartStepsDecode(ds - 255, dn, rest, start + 255, line, offset);
    } else {
      UpStepsDecode(ds, dn, rest, start, line, offset);
    }
  }

  lemma {:induction false} EncodeDecode(prevStart: int, prevNumber: int, lines: seq<LineEntry>, offset: int)
    requires AllNumbered(lines)
    requires StartsFrom(prevStart, lines)
    ensures LineAt(Encode(prevStart, prevNumber, lines).value, prevStart, prevNumber, offset) ==
              LineInEffect(prevNumber, lines, offset)
    decreases |lines|
  {
    if lines != [] {
      StartsFromTail(prevStart, lines);
      AllNumberedTail(lines);
      var l := lines[0];
      var rest := Encode(l.start, l.number.value, lines[1..]).value;
      StartStepsDecode(l.start - prevStart, l.number.value - prevNumber, rest, prevStart, prevNumber, offset);
      EncodeDecode(l.start, l.number.value, lines[1..], offset);
    }
  }

  /** The table `make_lnotab` builds maps every offset to the line in effect
      there, as CPython 3.9 reads it. */
  lemma MakeLnotabCorrect(firstLineNo: int, lines: seq<LineEntry>, offset: int)
    requires MakeLnotab(firstLineNo, lines).Some?
    ensures LineAt(MakeLnotab(firstLineNo, lines).value, 0, firstLineNo, offset) ==
              LineInEffect(firstLineNo, lines, offset)
  {
    EncodeDecode(0, firstLineNo, lines, offset);
  }

  /** The line bytes of a table, read as signed deltas, added up. */
  function DeltaSum(t: seq<Byte>): int
    decreases |t|
  {
    if |t| < 2 then 0 else Signed(t[1]) + DeltaSum(t[2..])
  }

  lemma {:induction false} DeltaSumAppend(a: seq<Byte>, b: seq<Byte>)
    requires |a| % 2 == 0
    ensures DeltaSum(a + b) == DeltaSum(a) + DeltaSum(b)
    decreases |a|
  {
    if a == [] {
      assert a + b == b;
    } else {
      assert (a + b)[2..] == a[2..] + b;
      DeltaSumAppend(a[2..], b);
    }
  }

  /** The pairs of one entry advance the start by its start delta and the
      line by its line delta, however they are split. */
  lemma {:induction false} DownStepsSums(ds: Byte, dn: int)
    requires dn <= 127
    ensures LengthSum(DownSteps(ds, dn)) == ds && DeltaSum(DownSteps(ds, dn)) == dn
    decreases if dn < -128 then -dn else 0
  {
    var t := DownSteps(ds, dn);
    if dn < -128 {
      assert t[2..] == DownSteps(0, dn + 128);
      SignedLowByte(-128);
      DownStepsSums(0, dn + 128);
    } else if ds != 0 || dn != 0 {
      SignedLowByte(dn);
      assert t[2..] == [];
    }
  }

  lemma {:induction false} UpStepsSums(ds: Byte, dn: int)
    ensures LengthSum(UpSteps(ds, dn)) == ds && DeltaSum(UpSteps(ds, dn)) == dn
    decreases if dn > 127 then dn else 0
  {
    if dn > 127 {
      assert UpSteps(ds, dn)[2..] == UpSteps(0, dn - 127);
      UpStepsSums(0, dn - 127);
    } else {
      DownStepsSums(ds, dn);
    }
  }

  lemma {:induction false} StartStepsSums(ds: nat, dn: int)
    ensures LengthSum(StartSteps(ds, dn)) == ds && DeltaSum(StartSteps(ds, dn)) == dn
    decreases ds
  {
    if ds > 255 {
      assert StartSteps(ds, dn)[2..] == StartSteps(ds - 255, dn);
      StartStepsSums(ds - 255, dn);
    } else {
      UpStepsSums(ds, dn);
    }
  }

  lemma {:induction false} EncodeSums(prevStart: int, prevNumber: int, lines: seq<LineEntry>)
    requires lines != [] && Encode(prevStart, prevNumber, lines).Some?
    ensures var last := lines[|lines| - 1];
            && last.number.Some?
            && LengthSum(Encode(prevStart, prevNumber, lines).value) == last.start - prevStart
            && DeltaSum(Encode(prevStart, prevNumber, lines).value) == last.number.value - prevNumber
    decreases |lines|
  {
    StartsFromTail(prevStart, lines);
    AllNumberedTail(lines);
    var l := lines[0];
    var steps := StartSteps(l.start - prevStart, l.number.value - prevNumber);
    var rest := Encode(l.start, l.number.value, lines[1..]).value;
    assert Encode(prevStart, prevNumber, lines).value == steps + rest;
    StartStepsSums(l.start - prevStart, l.number.value - prevNumber);
    LengthSumAppend(steps, rest);
    DeltaSumAppend(steps, rest);
    if |lines| == 1 {
      assert rest == [];
    } else {
      EncodeSums(l.start, l.number.value, lines[1..]);
      assert lines[1..][|lines| - 2] == lines[|lines| - 1];
    }
  }

  /** Every byte of `make_lnotab`'s table is in [0, 255] (`Byte`); its start
      bytes add up to the last line's start, and its line bytes, read as
      signed, to the last line's number less `firstlineno`.  No entries
      give an empty table. */
  lemma MakeLnotabSums(firstLineNo: int, lines: seq<LineEntry>)
    requires MakeLnotab(firstLineNo, lines).Some?
    ensures lines == [] ==> MakeLnotab(firstLineNo, lines).value == []
    ensures lines != [] ==>
              var last := lines[|lines| - 1];
              && last.number.Some?
              && LengthSum(MakeLnotab(firstLineNo, lines).value) == last.start
              && DeltaSum(MakeLnotab(firstLineNo, lines).value) == last.number.value - firstLineNo
  {
    if lines != [] {
      EncodeSums(0, firstLineNo, lines);
    }
  }
}
