/** Line-number entries of a code object (slipcover/bytecode.py, class
    `LineEntry`, lines 265-297): the byte range `[start, end)` a source line
    covers, and how insertions stretch it.  The three per-version table
    encoders live in modules `Lnotab`, `Linetable` and `Positions`. */
module Lines {
  import opened Numeric
  import opened Wrappers
  import opened Splice

  /** `number` is `None` for code that belongs to no line (Python 3.10+). */
  datatype LineEntry = LineEntry(start: int, end: int, number: Option<int>)

  predicate Covers(l: LineEntry, offset: int)
  {
    l.start <= offset < l.end
  }

  /** `LineEntry.adjust`: only boundaries strictly after the insertion point
      move, so code inserted at a line's start joins that line, and code
      inserted at its end does not. */
  function Adjust(l: LineEntry, insertOffset: int, insertLength: int): (r: LineEntry)
    ensures r.start == if l.start > insertOffset then l.start + insertLength else l.start
    ensures r.end == if l.end > insertOffset then l.end + insertLength else l.end
    ensures r.number == l.number
  {
    l.(start := if l.start > insertOffset then l.start + insertLength else l.start,
       end := if l.end > insertOffset then l.end + insertLength else l.end)
  }

  /** Every instruction already in the code stays on its line: an entry
      covers an offset before the insertion exactly when the adjusted entry
      covers where that offset moved. */
  lemma AdjustKeepsOffsets(l: LineEntry, insertOffset: int, insertLength: nat, offset: int)
    ensures Covers(l, offset) <==> Covers(Adjust(l, insertOffset, insertLength), Moved(offset, insertOffset, insertLength))
  {
  }

  /** The inserted bytes belong to the line that covered the insertion
      point. */
  lemma AdjustInserted(l: LineEntry, insertOffset: int, insertLength: nat, offset: int)
    requires insertOffset <= offset < insertOffset + insertLength
    ensures Covers(Adjust(l, insertOffset, insertLength), offset) <==> Covers(l, insertOffset)
  {
  }

  /** An insertion keeps a well-ordered entry well ordered, and leaves an
      entry ending at or before the insertion point as it was. */
  lemma AdjustOrdered(l: LineEntry, insertOffset: int, insertLength: nat)
    ensures l.start <= l.end ==> Adjust(l, insertOffset, insertLength).start <= Adjust(l, insertOffset, insertLength).end
    ensures l.end <= insertOffset && l.start <= l.end ==> Adjust(l, insertOffset, insertLength) == l
  {
  }

  /** The source's loop `for l in self.lines: l.adjust(...)`, the
      element-wise map `Branches.AdjustAll` is for branches. */
  function AdjustAll(lines: seq<LineEntry>, insertOffset: int, insertLength: int): (r: seq<LineEntry>)
    ensures |r| == |lines|
    ensures forall i :: 0 <= i < |r| ==> r[i] == Adjust(lines[i], insertOffset, insertLength)
  {
    if lines == [] then []
    else [Adjust(lines[0], insertOffset, insertLength)] + AdjustAll(lines[1..], insertOffset, insertLength)
  }

  /** The line of `offset` according to the entries: the number of the
      first entry covering it, `None` when none does. */
  function LineOf(lines: seq<LineEntry>, offset: int): (r: Option<int>)
    ensures r.Some? ==> exists i :: 0 <= i < |lines| && Covers(lines[i], offset) && lines[i].number == r
  {
    if lines == [] then None
    else if Covers(lines[0], offset) then lines[0].number
    else
      var r := LineOf(lines[1..], offset);
      assert r.Some? ==> exists i :: 1 <= i < |lines| && Covers(lines[i], offset) && lines[i].number == r by {
        if r.Some? {
          var i :| 0 <= i < |lines[1..]| && Covers(lines[1..][i], offset) && lines[1..][i].number == r;
          assert lines[i + 1] == lines[1..][i];
        }
      }
      r
  }

  /** After an insertion every old instruction still maps to its old line
      number, and each inserted byte to the line of the insertion point. */
  lemma {:induction false} AdjustAllLineOf(lines: seq<LineEntry>, insertOffset: int, insertLength: nat, offset: int)
    ensures LineOf(AdjustAll(lines, insertOffset, insertLength), Moved(offset, insertOffset, insertLength)) == LineOf(lines, offset)
    ensures insertOffset <= offset < insertOffset + insertLength ==>
              LineOf(AdjustAll(lines, insertOffset, insertLength), offset) == LineOf(lines, insertOffset)
  {
    if lines != [] {
      AdjustKeepsOffsets(lines[0], insertOffset, insertLength, offset);
      if insertOffset <= offset < insertOffset + insertLength {
        AdjustInserted(lines[0], insertOffset, insertLength, offset);
      }
      AdjustAllLineOf(lines[1..], insertOffset, insertLength, offset);
      assert AdjustAll(lines, insertOffset, insertLength)[1..] == AdjustAll(lines[1..], insertOffset, insertLength);
    }
  }

  /** `LineEntry.from_code` over the `(offset, line)` pairs that
      `dis.findlinestarts` yields: each line runs to the next line's start,
      the last one to the end of the code. */
  function FromStarts(starts: seq<(int, Option<int>)>, codeLength: int): (r: seq<LineEntry>)
    ensures |r| == |starts|
    ensures forall i :: 0 <= i < |r| ==> r[i].start == starts[i].0 && r[i].number == starts[i].1
    ensures forall i :: 0 <= i < |r| - 1 ==> r[i].end == r[i + 1].start
    ensures |r| > 0 ==> r[|r| - 1].end == codeLength
  {
    if starts == [] then []
    else if |starts| == 1 then [LineEntry(starts[0].0, codeLength, starts[0].1)]
    else [LineEntry(starts[0].0, starts[1].0, starts[0].1)] + FromStarts(starts[1..], codeLength)
  }

  /** Entries that follow each other without overlap from offset `from`:
      the shape `from_code` produces when line starts increase. */
  predicate Ordered(lines: seq<LineEntry>, from: int)
  {
    forall i :: 0 <= i < |lines| ==>
      (if i == 0 then from else lines[i - 1].end) <= lines[i].start <= lines[i].end
  }
}
