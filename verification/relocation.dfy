/** Where offsets go when `replace_global_with_const` rewrites its matches
    (slipcover/bytecode.py, lines 504-526): each matched instruction is
    replaced in turn, and every offset stored in a side structure is
    adjusted by the change in length at the match's current position.  An
    offset of the decoded buffer that no match covers lands at itself plus
    the changes of the matches that end at or before it. */
module Relocation {
  import opened Numeric
  import opened Instruction

  /** Instructions that follow each other inside a buffer of `size` bytes,
      from offset `from` on. */
  predicate InOrder(instrs: seq<Instr>, from: int, size: int)
    decreases |instrs|
  {
    if instrs == [] then from <= size
    else
      && from <= instrs[0].offset
      && instrs[0].offset + instrs[0].length <= size
      && InOrder(instrs[1..], instrs[0].offset + instrs[0].length, size)
  }

  lemma {:induction false} InOrderEarlier(instrs: seq<Instr>, from: int, from': int, size: int)
    requires InOrder(instrs, from, size) && from' <= from
    ensures InOrder(instrs, from', size)
  {
  }

  /** Every match covers at least one byte and every replacement is at
      least one byte long. */
  predicate Sized(ms: seq<Instr>, repls: seq<seq<Byte>>)
    requires |repls| == |ms|
    decreases |ms|
  {
    ms == [] || (ms[0].length > 0 && |repls[0]| > 0 && Sized(ms[1..], repls[1..]))
  }

  lemma {:induction false} AllSized(ms: seq<Instr>, repls: seq<seq<Byte>>)
    requires |repls| == |ms|
    requires forall k :: 0 <= k < |ms| ==> ms[k].length > 0 && |repls[k]| > 0
    ensures Sized(ms, repls)
    decreases |ms|
  {
    if ms != [] {
      AllSized(ms[1..], repls[1..]);
    }
  }

  /** One `adjust` of a stored offset `v` for `change` bytes more at `at`.
      The rule for the start of a range moves `v` when it is at or after
      `at` (`Branch.offset`, `ExceptionTableEntry.start`); the other rule
      only when it is strictly after. */
  function Step(v: int, at: int, change: int, atStart: bool): int
  {
    if (if atStart then v >= at else v > at) then v + change else v
  }

  /** A stored offset after the loop has adjusted it for every match in
      turn, match `ms[k]` sitting at its decoded offset plus the running
      `delta`. */
  function Shift(v: int, ms: seq<Instr>, repls: seq<seq<Byte>>, delta: int, atStart: bool): int
    requires |repls| == |ms|
    decreases |ms|
  {
    if ms == [] then v
    else
      var change := |repls[0]| - ms[0].length;
      Shift(Step(v, ms[0].offset + delta, change, atStart), ms[1..], repls[1..], delta + change, atStart)
  }

  /** The first adjustment of a `Shift`. */
  lemma ShiftCons(v: int, ms: seq<Instr>, repls: seq<seq<Byte>>, delta: int, atStart: bool)
    requires |repls| == |ms| && ms != []
    ensures Shift(v, ms, repls, delta, atStart)
         == Shift(Step(v, ms[0].offset + delta, |repls[0]| - ms[0].length, atStart), ms[1..], repls[1..],
                  delta + (|repls[0]| - ms[0].length), atStart)
  {
  }

  /** How much the code before decoded offset `x` grows: the changes of
      the matches that end at or before `x`. */
  function Growth(ms: seq<Instr>, repls: seq<seq<Byte>>, x: int): int
    requires |repls| == |ms|
    decreases |ms|
  {
    if ms == [] then 0
    else
      (if ms[0].offset + ms[0].length <= x then |repls[0]| - ms[0].length else 0) + Growth(ms[1..], repls[1..], x)
  }

  /** Where decoded offset `x` is once every match is replaced. */
  function Remap(ms: seq<Instr>, repls: seq<seq<Byte>>, x: int): int
    requires |repls| == |ms|
  {
    x + Growth(ms, repls, x)
  }

  /** `x` is not strictly inside any match: it is outside all of them or
      on the boundary of one. */
  predicate Outside(ms: seq<Instr>, x: int)
    decreases |ms|
  {
    ms == [] || (!(ms[0].offset < x < ms[0].offset + ms[0].length) && Outside(ms[1..], x))
  }

  /** `x` is the offset of no byte of any match. */
  predicate Apart(ms: seq<Instr>, x: int)
    decreases |ms|
  {
    ms == [] || (!(ms[0].offset <= x < ms[0].offset + ms[0].length) && Apart(ms[1..], x))
  }

  lemma {:induction false} ApartOutside(ms: seq<Instr>, x: int)
    requires Apart(ms, x)
    ensures Outside(ms, x)
    decreases |ms|
  {
    if ms != [] {
      ApartOutside(ms[1..], x);
    }
  }

  /** Offsets up to where the matches start are outside them, and the end
      of the buffer is apart from them. */
  lemma {:induction false} BeforeOutside(ms: seq<Instr>, from: int, size: int, x: int)
    requires InOrder(ms, from, size)
    ensures x <= from ==> Outside(ms, x)
    ensures x < from || x >= size ==> Apart(ms, x)
    decreases |ms|
  {
    if ms != [] {
      BeforeOutside(ms[1..], ms[0].offset + ms[0].length, size, x);
    }
  }

  /** Nothing grows before the first match ends. */
  lemma {:induction false} GrowthBefore(ms: seq<Instr>, repls: seq<seq<Byte>>, from: int, size: int, x: int)
    requires |repls| == |ms| && InOrder(ms, from, size) && Sized(ms, repls) && x <= from
    ensures Growth(ms, repls, x) == 0
    decreases |ms|
  {
    if ms != [] {
      GrowthBefore(ms[1..], repls[1..], ms[0].offset + ms[0].length, size, x);
    }
  }

  /** An offset before the position of every remaining match is left
      alone by all of them. */
  lemma {:induction false} ShiftUnmoved(v: int, ms: seq<Instr>, repls: seq<seq<Byte>>, delta: int, from: int, size: int,
                                        atStart: bool)
    requires |repls| == |ms| && InOrder(ms, from, size) && Sized(ms, repls)
    requires v < from + delta
    ensures Shift(v, ms, repls, delta, atStart) == v
    decreases |ms|
  {
    if ms != [] {
      var change := |repls[0]| - ms[0].length;
      ShiftUnmoved(v, ms[1..], repls[1..], delta + change, ms[0].offset + ms[0].length, size, atStart);
    }
  }

  /** The loop's adjustments move a stored offset exactly to where the
      rewrite puts the decoded offset, provided no match covers it: for
      the start-of-range rule not even the first byte of a match, for the
      other rule no byte but the first. */
  lemma {:induction false} ShiftRemap(x: int, ms: seq<Instr>, repls: seq<seq<Byte>>, delta: int, from: int, size: int,
                                      atStart: bool)
    requires |repls| == |ms| && InOrder(ms, from, size) && Sized(ms, repls)
    requires if atStart then Apart(ms, x) else Outside(ms, x)
    ensures Shift(x + delta, ms, repls, delta, atStart) == Remap(ms, repls, x) + delta
    decreases |ms|
  {
    if ms != [] {
      var m := ms[0];
      var change := |repls[0]| - m.length;
      var end := m.offset + m.length;
      if x >= end {
        assert Step(x + delta, m.offset + delta, change, atStart) == x + (delta + change);
        ShiftRemap(x, ms[1..], repls[1..], delta + change, end, size, atStart);
      } else {
        assert Step(x + delta, m.offset + delta, change, atStart) == x + delta;
        ShiftUnmoved(x + delta, ms[1..], repls[1..], delta + change, end, size, atStart);
        GrowthBefore(ms[1..], repls[1..], end, size, x);
      }
    }
  }

  /** The same from the start of the loop, where no match has been
      replaced yet. */
  lemma ShiftRemapFromStart(x: int, ms: seq<Instr>, repls: seq<seq<Byte>>, size: int, atStart: bool)
    requires |repls| == |ms| && InOrder(ms, 0, size) && Sized(ms, repls)
    requires if atStart then Apart(ms, x) else Outside(ms, x)
    ensures Shift(x, ms, repls, 0, atStart) == Remap(ms, repls, x)
  {
    ShiftRemap(x, ms, repls, 0, 0, size, atStart);
    assert x + 0 == x;
  }

  /** The rewrite keeps offsets in order: from an offset outside the
      matches, a later offset lands no earlier, and a strictly later one
      strictly later, even where matches shrink in between. */
  lemma {:induction false} RemapMono(ms: seq<Instr>, repls: seq<seq<Byte>>, from: int, size: int, a: int, b: int)
    requires |repls| == |ms| && InOrder(ms, from, size) && Sized(ms, repls)
    requires Outside(ms, a) && a <= b
    ensures Remap(ms, repls, a) <= Remap(ms, repls, b)
    ensures a < b ==> Remap(ms, repls, a) < Remap(ms, repls, b)
    decreases |ms|
  {
    if ms != [] {
      var end := ms[0].offset + ms[0].length;
      RemapMono(ms[1..], repls[1..], end, size, a, b);
      if a < end <= b {
        BeforeOutside(ms[1..], end, size, end);
        RemapMono(ms[1..], repls[1..], end, size, end, b);
        GrowthBefore(ms[1..], repls[1..], end, size, a);
        GrowthBefore(ms[1..], repls[1..], end, size, end);
      }
    }
  }

  /** Between offsets outside the matches the rewrite is an order
      isomorphism. */
  lemma RemapOrder(ms: seq<Instr>, repls: seq<seq<Byte>>, from: int, size: int, a: int, b: int)
    requires |repls| == |ms| && InOrder(ms, from, size) && Sized(ms, repls)
    requires Outside(ms, a) && Outside(ms, b)
    ensures a <= b <==> Remap(ms, repls, a) <= Remap(ms, repls, b)
    ensures a < b <==> Remap(ms, repls, a) < Remap(ms, repls, b)
  {
    if a <= b {
      RemapMono(ms, repls, from, size, a, b);
    } else {
      RemapMono(ms, repls, from, size, b, a);
    }
  }

  /** No match shares a byte with the range `[a, b)`. */
  predicate Clear(ms: seq<Instr>, a: int, b: int)
    decreases |ms|
  {
    ms == [] || ((ms[0].offset + ms[0].length <= a || b <= ms[0].offset) && Clear(ms[1..], a, b))
  }

  /** A non-empty range clear of the matches starts apart from them and
      ends outside them, and the rewrite keeps its length. */
  lemma {:induction false} ClearRange(ms: seq<Instr>, repls: seq<seq<Byte>>, a: int, b: int)
    requires |repls| == |ms| && Sized(ms, repls)
    requires Clear(ms, a, b) && a < b
    ensures Apart(ms, a) && Outside(ms, b)
    ensures Remap(ms, repls, b) - Remap(ms, repls, a) == b - a
    decreases |ms|
  {
    if ms != [] {
      ClearRange(ms[1..], repls[1..], a, b);
    }
  }
}
