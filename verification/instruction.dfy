/** The instruction codec: emitting an opcode with its variable-length
    argument, decoding a bytecode buffer into instructions, and the
    straight-line stack-depth bound of a decoded buffer
    (slipcover/bytecode.py, lines 48-104). */
module Instruction {
  import opened Numeric
  import opened Wrappers
  import opened Profile

  /** One decoded instruction: where it starts (at its first EXTENDED_ARG,
      if any), how many bytes it spans (prefixes and inline cache words
      included), its opcode and its fully assembled argument. */
  datatype Instr = Instr(offset: nat, length: nat, opcode: Byte, arg: nat)

  /** How many EXTENDED_ARG prefixes `arg` needs; -1 for a zero argument,
      by Python's floor division of -1 by 8. */
  function ArgExtNeeded(arg: int): (r: int)
    ensures r >= -1
  {
    (BitLength(Abs(arg)) - 1) / 8
  }

  /** `k` prefixes suffice for `arg` exactly when its magnitude fits in
      `k + 1` bytes. */
  lemma ArgExtNeededBound(arg: int, k: int)
    requires k >= -1
    ensures ArgExtNeeded(arg) <= k <==> Abs(arg) < Pow2(8 * (k + 1))
  {
    BitLengthBound(Abs(arg), 8 * (k + 1));
  }

  lemma Pow2Byte()
    ensures Pow2(8) == 256
  {
    assert Pow2(1) == 2;
    assert Pow2(2) == 4;
    assert Pow2(3) == 8;
    assert Pow2(4) == 16;
    assert Pow2(5) == 32;
    assert Pow2(6) == 64;
    assert Pow2(7) == 128;
  }

  /** The argument bits above its lowest `k` bytes: Python's `arg >> 8*k`
      (floor division by 256, `k` times). */
  function ByteShift(arg: int, k: nat): (r: int)
    ensures arg >= 0 ==> r >= 0
  {
    if k == 0 then arg else ByteShift(arg, k - 1) / 256
  }

  /** An argument below `256^k` has nothing left after `k` byte shifts. */
  lemma {:induction false} ByteShiftSmall(arg: nat, k: nat)
    requires arg < Pow2(8 * k)
    ensures ByteShift(arg, k) == 0
    decreases k
  {
    if k > 0 {
      Pow2Byte();
      Pow2Add(8 * (k - 1), 8);
      ByteShiftSmall(arg / 256, k - 1);
      ByteShiftDiv(arg, k - 1);
    }
  }

  /** Shifting by one more byte first is the same as shifting by one byte last. */
  lemma {:induction false} ByteShiftDiv(arg: int, k: nat)
    ensures ByteShift(arg / 256, k) == ByteShift(arg, k + 1)
    decreases k
  {
    if k > 0 {
      ByteShiftDiv(arg, k - 1);
    }
  }

  /** The EXTENDED_ARG words for prefixes `i` .. `ext - 1`; prefix `i`
      carries byte `ext - i` of the argument. */
  function ExtPrefix(p: Profile, arg: int, ext: int, i: nat): (r: seq<Byte>)
    ensures |r| == 2 * Max(ext - i, 0)
    ensures forall k :: 0 <= k < |r| && k % 2 == 0 ==> r[k] == p.ops.extendedArg
    ensures forall k :: 0 <= k < |r| && k % 2 == 1 ==> r[k] == ByteShift(arg, ext - i - k / 2) % 256
    decreases ext - i
  {
    if i >= ext then []
    else [p.ops.extendedArg, ByteShift(arg, ext - i) % 256] + ExtPrefix(p, arg, ext, i + 1)
  }

  /** `n` inline cache words. */
  function CacheFill(p: Profile, n: nat): (r: seq<Byte>)
    ensures |r| == 2 * n
    ensures forall k :: 0 <= k < |r| && k % 2 == 0 ==> r[k] == p.ops.cache
    ensures forall k :: 0 <= k < |r| && k % 2 == 1 ==> r[k] == 0
  {
    if n == 0 then [] else [p.ops.cache, 0] + CacheFill(p, n - 1)
  }

  /** The prefix count `OpcodeArg` emits: at least `minExt`, at least what
      the argument needs, never negative. */
  function ExtCount(arg: int, minExt: int): nat
  {
    Max(Max(ArgExtNeeded(arg), minExt), 0)
  }

  /** Emits `opcode` with its argument, preceded by EXTENDED_ARG prefixes
      (at least `minExt` of them) and followed, on 3.11+, by the opcode's
      inline cache words.  The source asserts that at most three prefixes
      are used. */
  function OpcodeArg(p: Profile, opcode: Byte, arg: int, minExt: int): (r: seq<Byte>)
    requires Max(ArgExtNeeded(arg), minExt) <= 3
    ensures |r| == 2 + 2 * ExtCount(arg, minExt) + 2 * CacheEntries(p, opcode)
    ensures ExtCount(arg, minExt) <= 3
    ensures r[2 * ExtCount(arg, minExt)] == opcode
    ensures r[2 * ExtCount(arg, minExt) + 1] == arg % 256
    ensures forall k :: 0 <= k < 2 * ExtCount(arg, minExt) && k % 2 == 0 ==> r[k] == p.ops.extendedArg
    ensures forall k :: 0 <= k < 2 * ExtCount(arg, minExt) && k % 2 == 1 ==>
              r[k] == ByteShift(arg, ExtCount(arg, minExt) - k / 2) % 256
    ensures forall k :: 2 * ExtCount(arg, minExt) + 2 <= k < |r| && k % 2 == 0 ==> r[k] == p.ops.cache
  {
    var ext := Max(ArgExtNeeded(arg), minExt);
    ExtPrefix(p, arg, ext, 0) + [opcode, arg % 256] + CacheFill(p, CacheEntries(p, opcode))
  }

  /** The word index where the inline-cache skip of an instruction whose
      opcode word is at `off` stops: on 3.11+ every directly following CACHE
      word is taken as part of the instruction. */
  function SkipCaches(p: Profile, code: seq<Byte>, off: nat): (r: nat)
    requires off % 2 == 0 && off + 2 <= |code| && |code| % 2 == 0
    ensures off <= r && r % 2 == 0 && r + 2 <= |code|
    ensures r > off ==> p.version == Py311 && code[r] == p.ops.cache
    decreases |code| - off
  {
    if p.version == Py311 && off + 2 < |code| && code[off + 2] == p.ops.cache then SkipCaches(p, code, off + 2)
    else off
  }

  /** The decoding loop of `unpack_opargs`, from byte `off`, with the current
      instruction starting at `nextOff` and `extArg` the argument bits
      accumulated from its EXTENDED_ARG prefixes so far.  (`extArg` is
      always a multiple of 256, so the source's `ext_arg | byte` is a sum.) */
  function UnpackFrom(p: Profile, code: seq<Byte>, off: nat, nextOff: nat, extArg: nat): (r: seq<Instr>)
    requires |code| % 2 == 0 && off % 2 == 0 && nextOff % 2 == 0 && nextOff <= off <= |code|
    requires extArg % 256 == 0
    ensures forall i :: 0 <= i < |r| ==> Decoded(p, code, r[i])
    ensures |r| > 0 ==> r[0].offset == nextOff
    decreases |code| - off
  {
    if off >= |code| then []
    else
      var op := code[off];
      if IsExtendedArg(p, op) then
        MulMod256(extArg + code[off + 1]);
        UnpackFrom(p, code, off + 2, nextOff, (extArg + code[off + 1]) * 256)
      else
        var last := SkipCaches(p, code, off);
        var ins := Instr(nextOff, last + 2 - nextOff, op, extArg + code[off + 1]);
        var rest := UnpackFrom(p, code, last + 2, last + 2, 0);
        assert Decoded(p, code, ins);
        DecodedCons(p, code, ins, rest);
        [ins] + rest
  }

  /** An instruction of whole words inside the buffer whose last word holds
      its opcode, or on 3.11+ one of its CACHE words. */
  predicate Decoded(p: Profile, code: seq<Byte>, ins: Instr)
  {
    && ins.length >= 2 && ins.length % 2 == 0
    && 0 <= ins.offset + ins.length - 2 && ins.offset + ins.length <= |code|
    && var last := code[ins.offset + ins.length - 2];
       last == ins.opcode || (p.version == Py311 && last == p.ops.cache)
  }

  lemma DecodedCons(p: Profile, code: seq<Byte>, ins: Instr, rest: seq<Instr>)
    requires Decoded(p, code, ins) && forall i :: 0 <= i < |rest| ==> Decoded(p, code, rest[i])
    ensures forall i :: 0 <= i < |[ins] + rest| ==> Decoded(p, code, ([ins] + rest)[i])
  {
    var r := [ins] + rest;
    assert forall i :: 1 <= i < |r| ==> r[i] == rest[i - 1];
  }

  /** Each instruction starts where the previous one ends. */
  ghost predicate Contiguous(r: seq<Instr>)
  {
    forall i :: 0 <= i < |r| - 1 ==> r[i + 1].offset == r[i].offset + r[i].length
  }

  /** Decoded instructions are contiguous: each starts where the previous
      one ends. */
  lemma {:induction false} UnpackFromTiles(p: Profile, code: seq<Byte>, off: nat, nextOff: nat, extArg: nat)
    requires |code| % 2 == 0 && off % 2 == 0 && nextOff % 2 == 0 && nextOff <= off <= |code|
    requires extArg % 256 == 0
    ensures Contiguous(UnpackFrom(p, code, off, nextOff, extArg))
    ensures forall i :: 0 <= i < |UnpackFrom(p, code, off, nextOff, extArg)| ==>
              UnpackFrom(p, code, off, nextOff, extArg)[i].offset % 2 == 0
    decreases |code| - off
  {
    if off < |code| {
      var op := code[off];
      if IsExtendedArg(p, op) {
        UnpackFromTiles(p, code, off + 2, nextOff, (extArg + code[off + 1]) * 256);
        assert UnpackFrom(p, code, off, nextOff, extArg) == UnpackFrom(p, code, off + 2, nextOff, (extArg + code[off + 1]) * 256);
      } else {
        var last := SkipCaches(p, code, off);
        UnpackFromTiles(p, code, last + 2, last + 2, 0);
        var rest := UnpackFrom(p, code, last + 2, last + 2, 0);
        var r := UnpackFrom(p, code, off, nextOff, extArg);
        assert r == [r[0]] + rest;
        assert forall i :: 1 <= i < |r| ==> r[i] == rest[i - 1];
        assert |rest| > 0 ==> r[1].offset == r[0].offset + r[0].length;
      }
    }
  }

  /** `unpack_opargs`: decodes a whole bytecode buffer.  The instructions
      tile the buffer from offset 0: each starts where the previous one
      ends, and none runs past the end. */
  function Unpack(p: Profile, code: seq<Byte>): (r: seq<Instr>)
    requires |code| % 2 == 0
    ensures forall i :: 0 <= i < |r| ==> Decoded(p, code, r[i])
    ensures |r| > 0 ==> r[0].offset == 0
    ensures Contiguous(r)
  {
    UnpackFromTiles(p, code, 0, 0, 0);
    UnpackFrom(p, code, 0, 0, 0)
  }

  /** `_unpack_opargs` reads the buffer faithfully: each instruction's
      opcode and argument are the ones its words spell, and decoding only
      stops short of the end at EXTENDED_ARG words no opcode word
      completes. */
  lemma UnpackSpelled(p: Profile, code: seq<Byte>)
    requires |code| % 2 == 0
    ensures forall i :: 0 <= i < |Unpack(p, code)| ==> Reads(p, code, Unpack(p, code)[i])
    ensures forall k :: 0 <= k < |code| && DecodedEnd(Unpack(p, code), 0) <= k && k % 2 == 0 ==> IsExtendedArg(p, code[k])
  {
    var r := Unpack(p, code);
    UnpackFromReads(p, code, 0, 0, 0);
    forall i | 0 <= i < |r|
      ensures Reads(p, code, r[i])
    {
      AllReadAt(p, code, r, i);
    }
  }

  /** Every instruction is as the buffer spells it, and the words after
      the last one, from `from` if there is none, are EXTENDED_ARGs that no
      opcode word completes. */
  predicate Spelled(p: Profile, code: seq<Byte>, r: seq<Instr>, from: int)
  {
    && AllRead(p, code, r)
    && (forall k :: 0 <= k < |code| && DecodedEnd(r, from) <= k && k % 2 == 0 ==> IsExtendedArg(p, code[k]))
  }

  predicate AllRead(p: Profile, code: seq<Byte>, r: seq<Instr>)
  {
    r == [] || (Reads(p, code, r[0]) && AllRead(p, code, r[1..]))
  }

  lemma {:induction false} AllReadAt(p: Profile, code: seq<Byte>, r: seq<Instr>, i: int)
    requires AllRead(p, code, r) && 0 <= i < |r|
    ensures Reads(p, code, r[i])
  {
    if i > 0 {
      AllReadAt(p, code, r[1..], i - 1);
    }
  }

  /** Where decoding stopped: the end of the last instruction, `from` if
      there is none. */
  function DecodedEnd(r: seq<Instr>, from: int): int
  {
    if r == [] then from else r[|r| - 1].offset + r[|r| - 1].length
  }

  /** The first word at or after `off` that is not an EXTENDED_ARG: the
      opcode word of an instruction starting at `off`, or the end of the
      buffer. */
  function OpcodeWord(p: Profile, code: seq<Byte>, off: nat): (r: nat)
    requires off % 2 == 0 && off <= |code| && |code| % 2 == 0
    ensures off <= r <= |code| && r % 2 == 0
    ensures forall k :: off <= k < r && k % 2 == 0 ==> IsExtendedArg(p, code[k])
    ensures r < |code| ==> !IsExtendedArg(p, code[r])
    decreases |code| - off
  {
    if off == |code| || !IsExtendedArg(p, code[off]) then off else OpcodeWord(p, code, off + 2)
  }

  /** The argument bytes of the `n` words from `off`, read as one
      big-endian number. */
  function ArgBytes(code: seq<Byte>, off: nat, n: nat): nat
    requires off + 2 * n <= |code|
  {
    if n == 0 then 0 else ArgBytes(code, off, n - 1) * 256 + code[off + 2 * n - 1]
  }

  /** An instruction as the buffer spells it: EXTENDED_ARG words from its
      offset up to its opcode word, the argument bytes of all of them making
      up its argument, most significant first; then, from 3.11 on, exactly
      the CACHE words that directly follow. */
  predicate Reads(p: Profile, code: seq<Byte>, ins: Instr)
  {
    && |code| % 2 == 0 && ins.offset % 2 == 0 && ins.offset + ins.length <= |code|
    && var w := OpcodeWord(p, code, ins.offset);
    && w + 2 <= ins.offset + ins.length
    && ins.opcode == code[w]
    && ins.arg == ArgBytes(code, ins.offset, (w - ins.offset) / 2 + 1)
    && (forall k :: w + 2 <= k < ins.offset + ins.length && k % 2 == 0 ==> p.version == Py311 && code[k] == p.ops.cache)
    && (p.version == Py311 && ins.offset + ins.length < |code| ==> code[ins.offset + ins.length] != p.ops.cache)
  }

  lemma {:induction false} OpcodeWordAt(p: Profile, code: seq<Byte>, from: nat, off: nat)
    requires |code| % 2 == 0 && from % 2 == 0 && off % 2 == 0 && from <= off < |code|
    requires forall k :: from <= k < off && k % 2 == 0 ==> IsExtendedArg(p, code[k])
    requires !IsExtendedArg(p, code[off])
    ensures OpcodeWord(p, code, from) == off
    decreases off - from
  {
    if from < off {
      OpcodeWordAt(p, code, from + 2, off);
    }
  }

  /** The CACHE words an instruction takes are all there are. */
  lemma {:induction false} SkipCachesRun(p: Profile, code: seq<Byte>, off: nat)
    requires off % 2 == 0 && off + 2 <= |code| && |code| % 2 == 0
    ensures forall k :: off + 2 <= k < SkipCaches(p, code, off) + 2 && k % 2 == 0 ==>
              p.version == Py311 && code[k] == p.ops.cache
    ensures p.version == Py311 && SkipCaches(p, code, off) + 2 < |code| ==> code[SkipCaches(p, code, off) + 2] != p.ops.cache
    decreases |code| - off
  {
    if p.version == Py311 && off + 2 < |code| && code[off + 2] == p.ops.cache {
      SkipCachesRun(p, code, off + 2);
    }
  }

  /** The loop reports every instruction as the buffer spells it, and stops
      short of the end only over EXTENDED_ARG words that no opcode word
      completes. */
  lemma {:induction false} UnpackFromReads(p: Profile, code: seq<Byte>, off: nat, nextOff: nat, extArg: nat)
    requires |code| % 2 == 0 && off % 2 == 0 && nextOff % 2 == 0 && nextOff <= off <= |code|
    requires extArg == ArgBytes(code, nextOff, (off - nextOff) / 2) * 256
    requires forall k :: nextOff <= k < off && k % 2 == 0 ==> IsExtendedArg(p, code[k])
    ensures Spelled(p, code, UnpackFrom(p, code, off, nextOff, extArg), nextOff)
    decreases |code| - off, 1
  {
    ArgBytesStep(code, nextOff, off, extArg);
    if off == |code| {
      assert UnpackFrom(p, code, off, nextOff, extArg) == [];
    } else if IsExtendedArg(p, code[off]) {
      ExtendedArgReads(p, code, off, nextOff, extArg);
    } else {
      OpcodeWordStepReads(p, code, off, nextOff, extArg);
    }
  }

  /** An EXTENDED_ARG word only feeds its byte to the instruction being
      decoded. */
  lemma {:induction false} ExtendedArgReads(p: Profile, code: seq<Byte>, off: nat, nextOff: nat, extArg: nat)
    requires |code| % 2 == 0 && off % 2 == 0 && nextOff % 2 == 0 && nextOff <= off < |code|
    requires extArg == ArgBytes(code, nextOff, (off - nextOff) / 2) * 256
    requires forall k :: nextOff <= k < off && k % 2 == 0 ==> IsExtendedArg(p, code[k])
    requires IsExtendedArg(p, code[off])
    ensures Spelled(p, code, UnpackFrom(p, code, off, nextOff, extArg), nextOff)
    decreases |code| - off, 0
  {
    ArgBytesStep(code, nextOff, off, extArg);
    UnpackFromReads(p, code, off + 2, nextOff, (extArg + code[off + 1]) * 256);
    UnpackExtendedArg(p, code, off, nextOff, extArg);
  }

  /** Any other word completes an instruction as the buffer spells it, in
      front of what the rest decodes to. */
  lemma {:induction false} OpcodeWordStepReads(p: Profile, code: seq<Byte>, off: nat, nextOff: nat, extArg: nat)
    requires |code| % 2 == 0 && off % 2 == 0 && nextOff % 2 == 0 && nextOff <= off < |code|
    requires extArg == ArgBytes(code, nextOff, (off - nextOff) / 2) * 256
    requires forall k :: nextOff <= k < off && k % 2 == 0 ==> IsExtendedArg(p, code[k])
    requires !IsExtendedArg(p, code[off])
    ensures Spelled(p, code, UnpackFrom(p, code, off, nextOff, extArg), nextOff)
    decreases |code| - off, 0
  {
    ArgBytesStep(code, nextOff, off, extArg);
    var last := SkipCaches(p, code, off);
    UnpackFromReads(p, code, last + 2, last + 2, 0);
    UnpackOpcodeWord(p, code, off, nextOff, extArg);
    OpcodeWordCons(p, code, off, nextOff, extArg, UnpackFrom(p, code, off, nextOff, extArg), UnpackFrom(p, code, last + 2, last + 2, 0));
  }

  /** One more argument byte shifts the ones read so far up by a byte. */
  lemma ArgBytesStep(code: seq<Byte>, nextOff: nat, off: nat, extArg: nat)
    requires off % 2 == 0 && nextOff % 2 == 0 && nextOff <= off <= |code| && |code| % 2 == 0
    requires extArg == ArgBytes(code, nextOff, (off - nextOff) / 2) * 256
    ensures extArg % 256 == 0
    ensures off < |code| ==>
              (extArg + code[off + 1]) * 256 == ArgBytes(code, nextOff, (off + 2 - nextOff) / 2) * 256
    ensures off < |code| ==>
              extArg + code[off + 1] == ArgBytes(code, nextOff, (off - nextOff) / 2 + 1)
  {
    var n := (off - nextOff) / 2;
    assert nextOff + 2 * n == off;
    if off < |code| {
      assert (off + 2 - nextOff) / 2 == n + 1;
      assert ArgBytes(code, nextOff, n + 1) == ArgBytes(code, nextOff, n) * 256 + code[off + 1];
    }
  }

  /** The instruction an opcode word completes is as the buffer spells it. */
  lemma OpcodeWordReads(p: Profile, code: seq<Byte>, off: nat, nextOff: nat, extArg: nat)
    requires |code| % 2 == 0 && off % 2 == 0 && nextOff % 2 == 0 && nextOff <= off < |code|
    requires extArg == ArgBytes(code, nextOff, (off - nextOff) / 2) * 256
    requires forall k :: nextOff <= k < off && k % 2 == 0 ==> IsExtendedArg(p, code[k])
    requires !IsExtendedArg(p, code[off])
    ensures Reads(p, code, Instr(nextOff, SkipCaches(p, code, off) + 2 - nextOff, code[off], extArg + code[off + 1]))
  {
    SkipCachesRun(p, code, off);
    OpcodeWordAt(p, code, nextOff, off);
    ArgBytesStep(code, nextOff, off, extArg);
  }

  /** The instruction an opcode word completes, in front of what the rest
      of the buffer spells. */
  lemma OpcodeWordCons(p: Profile, code: seq<Byte>, off: nat, nextOff: nat, extArg: nat, r: seq<Instr>, rest: seq<Instr>)
    requires |code| % 2 == 0 && off % 2 == 0 && nextOff % 2 == 0 && nextOff <= off < |code|
    requires extArg == ArgBytes(code, nextOff, (off - nextOff) / 2) * 256
    requires forall k :: nextOff <= k < off && k % 2 == 0 ==> IsExtendedArg(p, code[k])
    requires !IsExtendedArg(p, code[off])
    requires r == [Instr(nextOff, SkipCaches(p, code, off) + 2 - nextOff, code[off], extArg + code[off + 1])] + rest
    requires Spelled(p, code, rest, SkipCaches(p, code, off) + 2)
    ensures Spelled(p, code, r, nextOff)
  {
    var ins := Instr(nextOff, SkipCaches(p, code, off) + 2 - nextOff, code[off], extArg + code[off + 1]);
    OpcodeWordReads(p, code, off, nextOff, extArg);
    SpelledCons(p, code, r, ins, rest, nextOff);
  }

  lemma SpelledCons(p: Profile, code: seq<Byte>, r: seq<Instr>, ins: Instr, rest: seq<Instr>, from: int)
    requires r == [ins] + rest
    requires Reads(p, code, ins) && Spelled(p, code, rest, ins.offset + ins.length)
    ensures Spelled(p, code, r, from)
  {
    assert r[1..] == rest;
    if rest != [] {
      assert r[|r| - 1] == rest[|rest| - 1];
    }
  }

  /** Every decoded instruction starts on a word boundary. */
  lemma UnpackEven(p: Profile, code: seq<Byte>)
    requires |code| % 2 == 0
    ensures forall i :: 0 <= i < |Unpack(p, code)| ==> Unpack(p, code)[i].offset % 2 == 0
  {
    UnpackFromTiles(p, code, 0, 0, 0);
  }

  lemma DivMod256(x: int)
    ensures (x / 256) * 256 + x % 256 == x
  {
  }

  lemma MulMod256(x: int)
    ensures (x * 256) % 256 == 0
  {
  }

  /** An EXTENDED_ARG word folds its byte into the pending argument. */
  lemma UnpackExtendedArg(p: Profile, code: seq<Byte>, off: nat, nextOff: nat, extArg: nat)
    requires |code| % 2 == 0 && off % 2 == 0 && nextOff % 2 == 0 && nextOff <= off < |code|
    requires extArg % 256 == 0
    requires IsExtendedArg(p, code[off])
    ensures UnpackFrom(p, code, off, nextOff, extArg)
         == UnpackFrom(p, code, off + 2, nextOff, (extArg + code[off + 1]) * 256)
  {
  }

  /** Any other word completes an instruction, together with the CACHE
      words that follow it. */
  lemma UnpackOpcodeWord(p: Profile, code: seq<Byte>, off: nat, nextOff: nat, extArg: nat)
    requires |code| % 2 == 0 && off % 2 == 0 && nextOff % 2 == 0 && nextOff <= off < |code|
    requires extArg % 256 == 0
    requires !IsExtendedArg(p, code[off])
    ensures var last := SkipCaches(p, code, off);
            (UnpackFrom(p, code, off, nextOff, extArg)
               == [Instr(nextOff, last + 2 - nextOff, code[off], extArg + code[off + 1])]
                  + UnpackFrom(p, code, last + 2, last + 2, 0))
  {
  }

  /** The first `e` words of `enc` are the EXTENDED_ARGs that carry the
      upper bytes of `arg`, most significant first. */
  predicate PrefixBytes(p: Profile, enc: seq<Byte>, arg: int, e: nat)
    requires 2 * e <= |enc|
  {
    && (forall k :: 0 <= k < 2 * e && k % 2 == 0 ==> enc[k] == p.ops.extendedArg)
    && (forall k :: 0 <= k < 2 * e && k % 2 == 1 ==> enc[k] == ByteShift(arg, e - k / 2) % 256)
  }

  /** Reading the EXTENDED_ARG prefixes that `OpcodeArg` emitted, from
      prefix `i` on, with `hi` the argument bytes above those still to
      read, accumulates the argument's upper bytes. */
  lemma {:induction false} ReadPrefixes(p: Profile, enc: seq<Byte>, arg: nat, e: nat, i: nat, hi: nat)
    requires |enc| % 2 == 0 && 2 * e + 2 <= |enc| && i <= e
    requires PrefixBytes(p, enc, arg, e)
    requires hi == ByteShift(arg, e - i + 1)
    ensures UnpackFrom(p, enc, 2 * i, 0, hi * 256) == UnpackFrom(p, enc, 2 * e, 0, ByteShift(arg, 1) * 256)
    decreases e - i
  {
    if i < e {
      var x := PrefixStep(p, enc, arg, e, i, hi);
      ReadPrefixes(p, enc, arg, e, i + 1, x);
    }
  }

  /** Reading the `i`-th prefix folds in the next byte of `arg`. */
  lemma PrefixStep(p: Profile, enc: seq<Byte>, arg: nat, e: nat, i: nat, hi: nat) returns (x: nat)
    requires |enc| % 2 == 0 && 2 * e + 2 <= |enc| && i < e
    requires PrefixBytes(p, enc, arg, e)
    requires hi == ByteShift(arg, e - i + 1)
    ensures x == ByteShift(arg, e - (i + 1) + 1)
    ensures UnpackFrom(p, enc, 2 * i, 0, hi * 256) == UnpackFrom(p, enc, 2 * (i + 1), 0, x * 256)
  {
    x := ByteShift(arg, e - i);
    assert hi == x / 256;
    PrefixAt(p, enc, arg, e, i);
    DivMod256(x);
    assert hi * 256 + enc[2 * i + 1] == x;
    UnpackExtendedArg(p, enc, 2 * i, 0, hi * 256);
  }

  /** The `i`-th EXTENDED_ARG word of an encoding. */
  lemma PrefixAt(p: Profile, enc: seq<Byte>, arg: nat, e: nat, i: nat)
    requires 2 * e <= |enc| && i < e
    requires PrefixBytes(p, enc, arg, e)
    ensures enc[2 * i] == p.ops.extendedArg && enc[2 * i + 1] == ByteShift(arg, e - i) % 256
  {
    var k := 2 * i + 1;
    assert k % 2 == 1 && k / 2 == i;
    assert (2 * i) % 2 == 0;
  }

  lemma {:induction false} SkipCacheFill(p: Profile, enc: seq<Byte>, off: nat, n: nat)
    requires |enc| % 2 == 0 && off % 2 == 0 && off + 2 + 2 * n == |enc|
    requires forall k :: off + 2 <= k < |enc| && k % 2 == 0 ==> enc[k] == p.ops.cache
    requires p.version != Py311 ==> n == 0
    ensures SkipCaches(p, enc, off) == off + 2 * n
    decreases n
  {
    if n > 0 {
      assert enc[off + 2] == p.ops.cache;
      SkipCacheFill(p, enc, off + 2, n - 1);
    }
  }

  /** Round trip of the instruction codec: decoding what `OpcodeArg` emits
      gives back exactly one instruction, with the opcode and argument that
      were encoded, spanning every emitted byte. */
  lemma OpcodeArgRoundTrip(p: Profile, opcode: Byte, arg: nat, minExt: int)
    requires WellFormed(p)
    requires !IsExtendedArg(p, opcode)
    requires Max(ArgExtNeeded(arg), minExt) <= 3
    ensures Unpack(p, OpcodeArg(p, opcode, arg, minExt))
         == [Instr(0, 2 + 2 * ExtCount(arg, minExt) + 2 * CacheEntries(p, opcode), opcode, arg)]
  {
    var e := ExtCount(arg, minExt);
    ArgExtNeededBound(arg, e);
    ByteShiftSmall(arg, e + 1);
    UnpackSingle(p, OpcodeArg(p, opcode, arg, minExt), e, CacheEntries(p, opcode), opcode, arg);
  }

  /** Decoding one instruction laid out as `e` prefixes carrying the upper
      bytes of `arg`, the opcode word, and `n` CACHE words. */
  lemma UnpackSingle(p: Profile, enc: seq<Byte>, e: nat, n: nat, opcode: Byte, arg: nat)
    requires |enc| == 2 + 2 * e + 2 * n
    requires !IsExtendedArg(p, opcode)
    requires p.version != Py311 ==> n == 0
    requires ByteShift(arg, e + 1) == 0
    requires PrefixBytes(p, enc, arg, e)
    requires enc[2 * e] == opcode && enc[2 * e + 1] == arg % 256
    requires forall k :: 2 * e + 2 <= k < |enc| && k % 2 == 0 ==> enc[k] == p.ops.cache
    ensures Unpack(p, enc) == [Instr(0, |enc|, opcode, arg)]
  {
    ReadPrefixes(p, enc, arg, e, 0, ByteShift(arg, e + 1));
    UnpackLastWord(p, enc, e, n, opcode, arg);
  }

  /** The opcode word after the prefixes completes the instruction. */
  lemma UnpackLastWord(p: Profile, enc: seq<Byte>, e: nat, n: nat, opcode: Byte, arg: nat)
    requires |enc| == 2 + 2 * e + 2 * n
    requires !IsExtendedArg(p, opcode)
    requires p.version != Py311 ==> n == 0
    requires enc[2 * e] == opcode && enc[2 * e + 1] == arg % 256
    requires forall k :: 2 * e + 2 <= k < |enc| && k % 2 == 0 ==> enc[k] == p.ops.cache
    ensures UnpackFrom(p, enc, 2 * e, 0, ByteShift(arg, 1) * 256) == [Instr(0, |enc|, opcode, arg)]
  {
    var acc := ByteShift(arg, 1) * 256;
    SkipCacheFill(p, enc, 2 * e, n);
    DivMod256(arg);
    MulMod256(ByteShift(arg, 1));
    UnpackOpcodeWord(p, enc, 2 * e, 0, acc);
    UnpackAtEnd(p, enc);
  }

  lemma UnpackAtEnd(p: Profile, code: seq<Byte>)
    requires |code| % 2 == 0
    ensures UnpackFrom(p, code, |code|, |code|, 0) == []
  {
  }

  /** Stack effect of one instruction; the argument is only passed for
      opcodes that take one. */
  function StackEffect(p: Profile, ins: Instr): int
  {
    p.ops.stackEffect(ins.opcode, if ins.opcode >= p.ops.haveArgument then Some(ins.arg) else None)
  }

  /** Stack depth after straight-line execution of the first `k` instructions. */
  function StackDepth(p: Profile, instrs: seq<Instr>, k: nat): int
    requires k <= |instrs|
  {
    if k == 0 then 0 else StackDepth(p, instrs, k - 1) + StackEffect(p, instrs[k - 1])
  }

  /** Some prefix of 1 to `k` instructions reaches depth `d`. */
  predicate Reached(p: Profile, instrs: seq<Instr>, k: nat, d: int)
    requires k <= |instrs|
  {
    exists j: nat :: 0 < j <= k && StackDepth(p, instrs, j) == d
  }

  /** The largest stack depth among the first `k` prefixes, and 0: the
      value `calc_max_stack` computes, as a recursive definition. */
  function MaxDepth(p: Profile, instrs: seq<Instr>, k: nat): (r: int)
    requires k <= |instrs|
    ensures r >= 0
    ensures forall j :: 0 <= j <= k ==> StackDepth(p, instrs, j) <= r
    ensures r == 0 || Reached(p, instrs, k, r)
  {
    if k == 0 then 0
    else if MaxDepth(p, instrs, k - 1) < StackDepth(p, instrs, k) then
      assert 0 < k <= k && StackDepth(p, instrs, k) == StackDepth(p, instrs, k);
      StackDepth(p, instrs, k)
    else MaxDepth(p, instrs, k - 1)
  }

  /** The largest straight-line stack depth of a bytecode buffer. */
  function MaxStack(p: Profile, code: seq<Byte>): (r: int)
    requires |code| % 2 == 0
    ensures r >= 0
  {
    MaxDepth(p, Unpack(p, code), |Unpack(p, code)|)
  }

  /** `calc_max_stack`: the largest stack depth reached while executing the
      decoded buffer straight through, counting the empty stack at the start. */
  method CalcMaxStack(p: Profile, code: seq<Byte>) returns (maxStack: int)
    requires |code| % 2 == 0
    ensures maxStack >= 0
    ensures forall k :: 0 <= k <= |Unpack(p, code)| ==> StackDepth(p, Unpack(p, code), k) <= maxStack
    ensures maxStack == 0 || exists k :: 0 < k <= |Unpack(p, code)| && StackDepth(p, Unpack(p, code), k) == maxStack
    ensures maxStack == MaxStack(p, code)
  {
    var instrs := Unpack(p, code);
    var stack := 0;
    maxStack := 0;
    var i := 0;
    while i < |instrs|
      invariant 0 <= i <= |instrs|
      invariant stack == StackDepth(p, instrs, i)
      invariant maxStack >= 0
      invariant forall k :: 0 <= k <= i ==> StackDepth(p, instrs, k) <= maxStack
      invariant maxStack == 0 || exists k :: 0 < k <= i && StackDepth(p, instrs, k) == maxStack
      invariant maxStack == MaxDepth(p, instrs, i)
    {
      stack := stack + StackEffect(p, instrs[i]);
      maxStack := Max(stack, maxStack);
      i := i + 1;
    }
  }
}
