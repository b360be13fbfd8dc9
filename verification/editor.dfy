/** The patcher itself (slipcover/bytecode.py, class `Editor`, lines
    425-526): it holds a copy of a code object's bytecode, the branches,
    exception-table entries and line entries decoded from it, and keeps
    them all in step while it splices instrumentation into the bytecode.
    `finish` is modelled in module `Finishing`. */
module Editing {
  import opened Numeric
  import opened Wrappers
  import opened Profile
  import opened Instruction
  import opened Splice
  import opened Relocation
  import Branches
  import Lines
  import ExceptionTable

  /** The parts of a code object the patcher reads.  `lineStarts` is what
      `dis.findlinestarts` yields for it: `(offset, line)` pairs, the line
      `None` for code without one.  Constants are opaque values of type
      `C`. */
  datatype CodeObject<C> = CodeObject(
    code: seq<Byte>,
    consts: seq<C>,
    names: seq<string>,
    firstLineNo: int,
    stackSize: int,
    lineStarts: seq<(int, Option<int>)>,
    exceptionTable: seq<Byte>)

  /** Why an operation of the patcher raises instead of returning. */
  datatype Error =
    | ArgumentTooLarge    // `opcode_arg` asserts at most three EXTENDED_ARGs
    | ByteOutOfRange      // a value above 255 stored into a `bytearray`
    | AlreadyFinished     // `finish` asserts it runs once
    | OpcodeMismatch      // `finish` finds a branch's opcode byte elsewhere
    | BranchTooLong       // a branch would need more than three EXTENDED_ARGs
    | BadLineTable        // the line table cannot be built

  datatype Editor<C> = Editor(
    orig: CodeObject<C>,
    consts: seq<C>,
    branches: seq<Branches.Branch>,
    exTable: seq<ExceptionTable.Entry>,
    lines: seq<Lines.LineEntry>,
    patch: seq<Byte>,
    maxAddtlStack: int,
    finished: bool)

  /** What the patcher keeps true of its side structures: every branch has
      its shape, and every exception-table offset is convertible to an
      argument. */
  predicate Valid<C>(p: Profile, e: Editor<C>)
  {
    && (forall i :: 0 <= i < |e.branches| ==> Branches.Shaped(p, e.branches[i]))
    && ExceptionTable.AllAligned(p, e.exTable)
  }

  /** Applies an insertion (or, for negative `n`, a removal) of `n` bytes at
      `x` to the branches, line entries and exception-table entries. */
  function AdjustAll<C>(e: Editor<C>, x: int, n: int): (r: Editor<C>)
    ensures r.branches == Branches.AdjustAll(e.branches, x, n)
    ensures r.lines == Lines.AdjustAll(e.lines, x, n)
    ensures r.exTable == ExceptionTable.AdjustAll(e.exTable, x, n)
    ensures r.patch == e.patch && r.consts == e.consts && r.orig == e.orig
    ensures r.maxAddtlStack == e.maxAddtlStack && r.finished == e.finished
  {
    e.(branches := Branches.AdjustAll(e.branches, x, n),
       lines := Lines.AdjustAll(e.lines, x, n),
       exTable := ExceptionTable.AdjustAll(e.exTable, x, n))
  }

  /** Shifting by a whole number of words keeps the editor valid. */
  lemma AdjustAllValid<C>(p: Profile, e: Editor<C>, x: int, n: int)
    requires Valid(p, e) && n % 2 == 0
    ensures Valid(p, AdjustAll(e, x, n))
  {
    var r := AdjustAll(e, x, n);
    forall i | 0 <= i < |r.branches|
      ensures Branches.Shaped(p, r.branches[i])
    {
      Branches.AdjustShaped(p, e.branches[i], x, n);
    }
    ExceptionTable.AdjustAllAligned(p, e.exTable, x, n);
  }

  /** `Editor.__init__`.  The exception table only exists from 3.11 on. */
  function NewEditor<C>(p: Profile, code: CodeObject<C>): (r: Editor<C>)
    requires |code.code| % 2 == 0
    ensures r.branches == Branches.FromCode(p, code.code)
    ensures r.lines == Lines.FromStarts(code.lineStarts, |code.code|)
    ensures r.exTable == if p.version == Py311 then ExceptionTable.FromTable(p, code.exceptionTable) else []
    ensures Valid(p, r)
    ensures Branches.Laid(r.branches, |code.code|)
    ensures forall i :: 0 <= i < |r.lines| - 1 ==> r.lines[i].end == r.lines[i + 1].start
    ensures |r.lines| > 0 ==> r.lines[|r.lines| - 1].end == |code.code|
    ensures r.patch == code.code && r.consts == code.consts && r.orig == code
    ensures r.maxAddtlStack == 0 && !r.finished
  {
    var branches := Branches.FromCode(p, code.code);
    FromCodeShaped(p, code.code);
    var exTable := if p.version == Py311 then ExceptionTable.FromTable(p, code.exceptionTable) else [];
    Editor(code, code.consts, branches, exTable, Lines.FromStarts(code.lineStarts, |code.code|),
           code.code, 0, false)
  }

  /** Decoded instructions are in order, from the start of the buffer. */
  lemma UnpackInOrder(p: Profile, code: seq<Byte>)
    requires |code| % 2 == 0
    ensures InOrder(Unpack(p, code), 0, |code|)
  {
    var instrs := Unpack(p, code);
    ContiguousInOrder(instrs, |code|);
  }

  lemma {:induction false} ContiguousInOrder(instrs: seq<Instr>, size: nat)
    requires Contiguous(instrs)
    requires forall i :: 0 <= i < |instrs| ==> instrs[i].offset + instrs[i].length <= size
    requires instrs != [] ==> instrs[0].offset >= 0
    ensures InOrder(instrs, if instrs == [] then 0 else instrs[0].offset, size)
    decreases |instrs|
  {
    if instrs != [] {
      var tail := instrs[1..];
      assert Contiguous(tail) by {
        forall i | 0 <= i < |tail| - 1
          ensures tail[i + 1].offset == tail[i].offset + tail[i].length
        {
          assert tail[i] == instrs[i + 1] && tail[i + 1] == instrs[i + 2];
        }
      }
      ContiguousInOrder(tail, size);
      if tail == [] {
        assert instrs[0].offset + instrs[0].length <= size;
      } else {
        assert tail[0] == instrs[1];
      }
    }
  }

  /** Branches picked out of instructions in order are laid out in order. */
  lemma {:induction false} BranchesOfLaid(p: Profile, instrs: seq<Instr>, from: int, size: int)
    requires InOrder(instrs, from, size) && from >= 0
    requires forall i :: 0 <= i < |instrs| ==> instrs[i].length > 0
    ensures Branches.Laid(Branches.BranchesOf(p, instrs), size)
    ensures forall i :: 0 <= i < |Branches.BranchesOf(p, instrs)| ==> Branches.BranchesOf(p, instrs)[i].offset >= from
    decreases |instrs|
  {
    if instrs != [] {
      var end := instrs[0].offset + instrs[0].length;
      BranchesOfLaid(p, instrs[1..], end, size);
      var rest := Branches.BranchesOf(p, instrs[1..]);
      var bs := Branches.BranchesOf(p, instrs);
      if IsBranchOp(p, instrs[0].opcode) {
        var b := Branches.BranchAt(p, instrs[0]);
        assert bs == [b] + rest;
        Branches.LaidCons(b, rest, size);
      } else {
        assert bs == rest;
      }
    }
  }

  lemma FromCodeShaped(p: Profile, code: seq<Byte>)
    requires |code| % 2 == 0
    ensures forall i :: 0 <= i < |Branches.FromCode(p, code)| ==> Branches.Shaped(p, Branches.FromCode(p, code)[i])
    ensures Branches.Laid(Branches.FromCode(p, code), |code|)
  {
    var instrs := Unpack(p, code);
    UnpackEven(p, code);
    UnpackInOrder(p, code);
    BranchesOfLaid(p, instrs, 0, |code|);
    var bs := Branches.FromCode(p, code);
    forall i | 0 <= i < |bs|
      ensures Branches.Shaped(p, bs[i])
    {
      var j :| 0 <= j < |instrs| && bs[i] == Branches.BranchAt(p, instrs[j]);
      Branches.BranchAtShaped(p, instrs[j]);
    }
  }

  /** `Editor.add_const`: appends a constant and returns its index, which
      then addresses it. */
  function AddConst<C>(e: Editor<C>, value: C): (r: (Editor<C>, nat))
    ensures r.1 == |e.consts| && |r.0.consts| == r.1 + 1
    ensures r.0.consts[r.1] == value && r.0.consts[..r.1] == e.consts
    ensures r.0 == e.(consts := r.0.consts)
  {
    (e.(consts := e.consts + [value]), |e.consts|)
  }

  /** What `opcode_arg` asserts of the arguments `insert_function_call`
      emits: the function's constant index, each argument's, and on 3.11
      the argument count. */
  predicate ArgsFit(p: Profile, callee: int, args: seq<int>)
  {
    && ArgExtNeeded(callee) <= 3
    && (forall i :: 0 <= i < |args| ==> ArgExtNeeded(args[i]) <= 3)
    && (p.version == Py311 ==> ArgExtNeeded(|args|) <= 3)
  }

  /** The words `opcode_arg` emits for `opcode` with `arg`: its
      EXTENDED_ARG prefixes, the opcode word and its CACHE words. */
  function Words(p: Profile, opcode: Byte, arg: int): (r: nat)
    ensures r >= 1
  {
    1 + ExtCount(arg, 0) + CacheEntries(p, opcode)
  }

  /** The bytes `opcode_arg` emits for `opcode` with `arg`, as a count. */
  function Width(p: Profile, opcode: Byte, arg: int): (r: nat)
    ensures r >= 2 && r % 2 == 0
  {
    2 * Words(p, opcode, arg)
  }

  /** A LOAD_CONST for each argument. */
  function LoadArgs(p: Profile, args: seq<int>): (r: seq<Byte>)
    requires forall i :: 0 <= i < |args| ==> ArgExtNeeded(args[i]) <= 3
    ensures |r| == LoadArgsWidth(p, args)
  {
    if args == [] then [] else OpcodeArg(p, p.ops.loadConst, args[0], 0) + LoadArgs(p, args[1..])
  }

  function LoadArgsWords(p: Profile, args: seq<int>): nat
  {
    if args == [] then 0 else Words(p, p.ops.loadConst, args[0]) + LoadArgsWords(p, args[1..])
  }

  function LoadArgsWidth(p: Profile, args: seq<int>): (r: nat)
    ensures r % 2 == 0
  {
    2 * LoadArgsWords(p, args)
  }

  /** The length of the instrumentation sequence, counted instruction by
      instruction: the NOP, on 3.11 a PUSH_NULL, the function's and the
      arguments' LOAD_CONSTs, the call (PRECALL and CALL on 3.11,
      CALL_FUNCTION before), and the POP_TOP. */
  function CallWidth(p: Profile, callee: int, args: seq<int>): (r: nat)
    ensures r >= 8 && r % 2 == 0
  {
    var call := if p.version == Py311 then Words(p, p.ops.precall, |args|) + Words(p, p.ops.call, |args|) else 1;
    2 * (1 + (if p.version == Py311 then 1 else 0) + Words(p, p.ops.loadConst, callee) + LoadArgsWords(p, args) + call + 1)
  }

  /** The instrumentation sequence with the leading NOP's argument still 0.
      Before 3.11 the argument count goes into a byte of its own, so more
      than 255 arguments make the source raise. */
  function CallSequence(p: Profile, callee: int, args: seq<int>): (r: Option<seq<Byte>>)
    requires ArgsFit(p, callee, args)
    ensures r.Some? <==> p.version == Py311 || |args| <= 255
    ensures r.Some? ==> |r.value| == CallWidth(p, callee, args)
    ensures r.Some? ==> r.value[0] == p.ops.nop && r.value[1] == 0
  {
    if p.version != Py311 && |args| > 255 then None
    else
      var load := OpcodeArg(p, p.ops.loadConst, callee, 0);
      var loads := LoadArgs(p, args);
      assert |load| == Width(p, p.ops.loadConst, callee);
      var body: seq<Byte> :=
        if p.version == Py311 then
          var precall := OpcodeArg(p, p.ops.precall, |args|, 0);
          var call := OpcodeArg(p, p.ops.call, |args|, 0);
          assert |precall| == Width(p, p.ops.precall, |args|) && |call| == Width(p, p.ops.call, |args|);
          [p.ops.pushNull, 0] + load + loads + precall + call + [p.ops.popTop, 0]
        else
          var argc: Byte := |args|;
          load + loads + [p.ops.callFunction, argc, p.ops.popTop, 0];
      assert |body| == CallWidth(p, callee, args) - 2;
      var nop: seq<Byte> := [p.ops.nop, 0];
      Some(nop + body)
  }

  /** The argument of the leading NOP: the jump over the rest of the
      sequence, which deinstrumentation turns the NOP into. */
  function SkipArg(p: Profile, callee: int, args: seq<int>): (r: nat)
    ensures Scale(p) * r == CallWidth(p, callee, args) - 2
  {
    var w := CallWidth(p, callee, args) - 2;
    EvenAligned(p, w);
    Offset2Branch(p, w)
  }

  /** `Editor.insert_function_call`: splices a call of constant `function`
      with constant arguments `args` into the code at `offset`, shifts
      every branch, line and exception-table entry, and returns the number
      of bytes inserted. */
  function InsertFunctionCall<C>(p: Profile, e: Editor<C>, offset: int, callee: int, args: seq<int>): (r: Result<(Editor<C>, int), Error>)
    ensures r.Failure? <==>
              || !ArgsFit(p, callee, args)
              || (p.version != Py311 && |args| > 255)
              || SkipArg(p, callee, args) > 255
    ensures r.Success? ==>
              var (e', n) := r.value;
              && n == CallWidth(p, callee, args)
              && |e'.patch| == |e.patch| + n
              && e' == AdjustAll(e, offset, n).(patch := e'.patch, maxAddtlStack := e'.maxAddtlStack)
              && e'.maxAddtlStack >= e.maxAddtlStack
    ensures r.Success? && 0 <= offset <= |e.patch| ==> CallInserted(p, e.patch, offset, e.maxAddtlStack, r.value.0, r.value.1)
  {
    if !ArgsFit(p, callee, args) then Failure(ArgumentTooLarge)
    else
      match CallSequence(p, callee, args)
      case None => Failure(ByteOutOfRange)
      case Some(sequence) =>
        var jump := SkipArg(p, callee, args);
        if jump > 255 then Failure(ByteOutOfRange)
        else
          var insert := sequence[1 := jump];
          Success((Spliced(p, e, offset, insert), |insert|))
  }

  /** `patch'` is `patch` with `n` bytes inserted at `offset`, a sequence
      starting with a NOP whose argument skips the rest, and the extra
      stack of `e'` covers what the inserted bytes need. */
  predicate CallInserted<C>(p: Profile, patch: seq<Byte>, offset: int, maxStack: int, e': Editor<C>, n: int)
    requires 0 <= offset <= |patch|
  {
    && 2 <= n && n % 2 == 0 && |e'.patch| == |patch| + n
    && var inserted := e'.patch[offset..offset + n];
    && e'.patch == patch[..offset] + inserted + patch[offset..]
    && inserted[0] == p.ops.nop && Scale(p) * inserted[1] == n - 2
    && e'.maxAddtlStack == Max(maxStack, MaxStack(p, inserted))
  }

  /** The editor with `insert` spliced in at `offset`: the bytes go in,
      everything after moves by their length, and the extra stack grows to
      what they need. */
  function Spliced<C>(p: Profile, e: Editor<C>, offset: int, insert: seq<Byte>): (r: Editor<C>)
    requires |insert| % 2 == 0
    ensures |r.patch| == |e.patch| + |insert|
    ensures r == AdjustAll(e, offset, |insert|).(patch := r.patch, maxAddtlStack := r.maxAddtlStack)
    ensures r.maxAddtlStack >= e.maxAddtlStack
    ensures 0 <= offset <= |e.patch| ==>
              && r.patch == e.patch[..offset] + insert + e.patch[offset..]
              && r.patch[offset..offset + |insert|] == insert
              && r.maxAddtlStack == Max(e.maxAddtlStack, MaxStack(p, insert))
  {
    var patch := SliceAssign(e.patch, offset, offset, insert);
    var r := AdjustAll(e, offset, |insert|).(patch := patch, maxAddtlStack := Max(e.maxAddtlStack, MaxStack(p, insert)));
    if 0 <= offset <= |e.patch| then
      SliceAssignParts(e.patch, offset, offset, insert);
      r
    else r
  }

  /** The insertion keeps everything already there: each old byte is at its
      moved offset, each old instruction keeps its line and its protection
      by the exception table, each branch keeps its target unless that is
      the insertion point itself, where it now reaches the inserted call
      first, and the inserted bytes belong to the line of the insertion
      point. */
  lemma InsertKeepsCode<C>(p: Profile, e: Editor<C>, offset: int, callee: int, args: seq<int>, i: int, o: int)
    requires InsertFunctionCall(p, e, offset, callee, args).Success?
    requires 0 <= offset <= |e.patch|
    ensures var (e', n) := InsertFunctionCall(p, e, offset, callee, args).value;
            SplicedKeeps(e, e', offset, n, i, o)
  {
    var insert := CallSequence(p, callee, args).value[1 := SkipArg(p, callee, args)];
    assert InsertFunctionCall(p, e, offset, callee, args).value == (Spliced(p, e, offset, insert), |insert|);
    SplicedKeepsCode(p, e, offset, insert, i, o);
  }

  /** What a splice keeps: each old byte is at its moved offset, each old
      instruction keeps its line and its protection by the exception
      table, each branch keeps its target unless that is the insertion
      point itself, and the `n` inserted bytes belong to the line of the
      insertion point. */
  predicate SplicedKeeps<C>(e: Editor<C>, e': Editor<C>, offset: int, n: int, i: int, o: int)
    requires |e'.patch| == |e.patch| + n && |e'.exTable| == |e.exTable| && |e'.branches| == |e.branches|
  {
    && (0 <= i < |e.patch| ==> 0 <= Moved(i, offset, n) < |e'.patch| && e'.patch[Moved(i, offset, n)] == e.patch[i])
    && Lines.LineOf(e'.lines, Moved(o, offset, n)) == Lines.LineOf(e.lines, o)
    && (offset <= o < offset + n ==> Lines.LineOf(e'.lines, o) == Lines.LineOf(e.lines, offset))
    && (0 <= i < |e.exTable| ==>
          (ExceptionTable.Covers(e.exTable[i], o) <==> ExceptionTable.Covers(e'.exTable[i], Moved(o, offset, n))))
    && (0 <= i < |e.branches| ==>
          && e'.branches[i].offset == Moved(e.branches[i].offset, offset, n)
          && e'.branches[i].target == if e.branches[i].target == offset then offset
                                      else Moved(e.branches[i].target, offset, n))
  }

  lemma SplicedKeepsCode<C>(p: Profile, e: Editor<C>, offset: int, insert: seq<Byte>, i: int, o: int)
    requires |insert| % 2 == 0 && 0 <= offset <= |e.patch|
    ensures SplicedKeeps(e, Spliced(p, e, offset, insert), offset, |insert|, i, o)
  {
    var e' := Spliced(p, e, offset, insert);
    var n := |insert|;
    assert e'.patch == SliceAssign(e.patch, offset, offset, insert);
    InsertMoves(e.patch, offset, insert, i);
    Lines.AdjustAllLineOf(e.lines, offset, n, o);
    if 0 <= i < |e.exTable| {
      ExceptionTable.AdjustKeepsOffsets(e.exTable[i], offset, n, o);
    }
  }

  /** Inserting keeps the editor valid and its branches laid out in the
      patched code. */
  lemma InsertKeepsValid<C>(p: Profile, e: Editor<C>, offset: int, callee: int, args: seq<int>)
    requires Valid(p, e)
    requires InsertFunctionCall(p, e, offset, callee, args).Success?
    ensures Valid(p, InsertFunctionCall(p, e, offset, callee, args).value.0)
    ensures Branches.Laid(e.branches, |e.patch|) && 0 <= offset <= |e.patch| ==>
              Branches.Laid(InsertFunctionCall(p, e, offset, callee, args).value.0.branches,
                            |InsertFunctionCall(p, e, offset, callee, args).value.0.patch|)
  {
    var (e', n) := InsertFunctionCall(p, e, offset, callee, args).value;
    AdjustAllValid(p, e, offset, n);
    if Branches.Laid(e.branches, |e.patch|) && 0 <= offset <= |e.patch| {
      Branches.AdjustAllLaid(e.branches, |e.patch|, offset, n);
    }
  }

  /** `co_names.index(name)`: the first position of `name`. */
  function IndexOf(names: seq<string>, name: string): (r: nat)
    requires name in names
    ensures r < |names| && names[r] == name
    ensures forall j :: 0 <= j < r ==> names[j] != name
  {
    if names[0] == name then 0 else 1 + IndexOf(names[1..], name)
  }

  /** A LOAD_GLOBAL of the name at `nameIndex`.  From 3.11 on the argument
      holds the index shifted left once, its low bit asking for a NULL to be
      pushed first. */
  predicate LoadsGlobal(p: Profile, ins: Instr, nameIndex: int)
  {
    ins.opcode == p.ops.loadGlobal && (if p.version == Py311 then ins.arg / 2 == nameIndex else ins.arg == nameIndex)
  }

  /** `find_load_globals`, read into a list before anything is changed. */
  function LoadGlobals(p: Profile, instrs: seq<Instr>, nameIndex: int): (r: seq<Instr>)
    ensures forall x :: x in r <==> x in instrs && LoadsGlobal(p, x, nameIndex)
  {
    if instrs == [] then []
    else (if LoadsGlobal(p, instrs[0], nameIndex) then [instrs[0]] else []) + LoadGlobals(p, instrs[1..], nameIndex)
  }

  /** Picking instructions out keeps them in order. */
  lemma {:induction false} LoadGlobalsInOrder(p: Profile, instrs: seq<Instr>, nameIndex: int, from: int, size: int)
    requires InOrder(instrs, from, size)
    ensures InOrder(LoadGlobals(p, instrs, nameIndex), from, size)
    decreases |instrs|
  {
    if instrs != [] {
      var end := instrs[0].offset + instrs[0].length;
      LoadGlobalsInOrder(p, instrs[1..], nameIndex, end, size);
      var rest := LoadGlobals(p, instrs[1..], nameIndex);
      if LoadsGlobal(p, instrs[0], nameIndex) {
        assert LoadGlobals(p, instrs, nameIndex) == [instrs[0]] + rest;
        assert ([instrs[0]] + rest)[1..] == rest;
      } else {
        assert LoadGlobals(p, instrs, nameIndex) == rest;
        InOrderEarlier(rest, end, from, size);
      }
    }
  }

  /** The argument PUSH_NULL is emitted with. */
  const PushNullArg: int := 0

  /** What replaces one matched LOAD_GLOBAL: a PUSH_NULL if it asked for
      one, then LOAD_CONST of the constant. */
  function Replacement(p: Profile, ins: Instr, constIndex: int): (r: seq<Byte>)
    requires ArgExtNeeded(constIndex) <= 3
    ensures |r| % 2 == 0 && |r| >= 2
  {
    var push: seq<Byte> := if p.version == Py311 && ins.arg % 2 == 1 then OpcodeArg(p, p.ops.pushNull, PushNullArg, 0) else [];
    var load := OpcodeArg(p, p.ops.loadConst, constIndex, 0);
    assert |push| % 2 == 0 && |load| % 2 == 0;
    push + load
  }

  /** The replacement for each match, in order. */
  function Replacements(p: Profile, ms: seq<Instr>, constIndex: int): (r: seq<seq<Byte>>)
    requires ArgExtNeeded(constIndex) <= 3
    ensures |r| == |ms|
    ensures forall i :: 0 <= i < |ms| ==> r[i] == Replacement(p, ms[i], constIndex)
  {
    seq(|ms|, i requires 0 <= i < |ms| => Replacement(p, ms[i], constIndex))
  }

  /** The bytes the replacement loop produces, without the side
      structures: match `ms[k]` becomes `repls[k]`. */
  function PatchLoop(patch: seq<Byte>, ms: seq<Instr>, repls: seq<seq<Byte>>, delta: int): seq<Byte>
    requires |repls| == |ms|
    decreases |ms|
  {
    if ms == [] then patch
    else
      var m := ms[0];
      PatchLoop(SliceAssign(patch, m.offset + delta, m.offset + delta + m.length, repls[0]), ms[1..], repls[1..],
                delta + |repls[0]| - m.length)
  }

  /** The branches after the replacement loop: for each match whose
      replacement changes the length, every branch is adjusted at the
      match's current offset. */
  function BranchesAfter(bs: seq<Branches.Branch>, ms: seq<Instr>, repls: seq<seq<Byte>>, delta: int): (r: seq<Branches.Branch>)
    requires |repls| == |ms|
    ensures |r| == |bs|
    decreases |ms|
  {
    if ms == [] then bs
    else
      var change := |repls[0]| - ms[0].length;
      var at := ms[0].offset + delta;
      BranchesAfter(if change != 0 then Branches.AdjustAll(bs, at, change) else bs, ms[1..], repls[1..], delta + change)
  }

  /** The line entries after the replacement loop. */
  function LinesAfter(ls: seq<Lines.LineEntry>, ms: seq<Instr>, repls: seq<seq<Byte>>, delta: int): (r: seq<Lines.LineEntry>)
    requires |repls| == |ms|
    ensures |r| == |ls|
    decreases |ms|
  {
    if ms == [] then ls
    else
      var change := |repls[0]| - ms[0].length;
      var at := ms[0].offset + delta;
      LinesAfter(if change != 0 then Lines.AdjustAll(ls, at, change) else ls, ms[1..], repls[1..], delta + change)
  }

  /** The exception-table entries after the replacement loop. */
  function EntriesAfter(xs: seq<ExceptionTable.Entry>, ms: seq<Instr>, repls: seq<seq<Byte>>, delta: int): (r: seq<ExceptionTable.Entry>)
    requires |repls| == |ms|
    ensures |r| == |xs|
    decreases |ms|
  {
    if ms == [] then xs
    else
      var change := |repls[0]| - ms[0].length;
      var at := ms[0].offset + delta;
      EntriesAfter(if change != 0 then ExceptionTable.AdjustAll(xs, at, change) else xs, ms[1..], repls[1..], delta + change)
  }

  /** The replacement loop, `delta` accumulating the length changes: match
      `ms[k]`, now at its decoded offset plus `delta`, becomes `repls[k]`,
      and if that changes the length, the lines, branches and
      exception-table entries are adjusted there.  Neither the bytes nor
      any of the three structures depends on the others, so each is
      followed through the loop on its own. */
  function ReplaceEach<C>(e: Editor<C>, ms: seq<Instr>, repls: seq<seq<Byte>>, delta: int): (r: Editor<C>)
    requires |repls| == |ms|
  {
    e.(patch := PatchLoop(e.patch, ms, repls, delta),
       branches := BranchesAfter(e.branches, ms, repls, delta),
       lines := LinesAfter(e.lines, ms, repls, delta),
       exTable := EntriesAfter(e.exTable, ms, repls, delta))
  }

  /** Replacing `t[a..b]` in a buffer that starts with `prefix`. */
  lemma SpliceAfter<T>(prefix: seq<T>, t: seq<T>, a: int, b: int, repl: seq<T>)
    requires 0 <= a <= b <= |t|
    ensures SliceAssign(prefix + t, |prefix| + a, |prefix| + b, repl) == (prefix + t[..a] + repl) + t[b..]
  {
    var s := prefix + t;
    assert s[..|prefix| + a] == prefix + t[..a];
    assert s[|prefix| + b..] == t[b..];
  }

  /** The intended result in the decoded buffer's own offsets: each match's
      bytes replaced, the bytes between matches kept. */
  function Rewritten(patch: seq<Byte>, ms: seq<Instr>, repls: seq<seq<Byte>>, from: int): seq<Byte>
    requires |repls| == |ms|
    requires InOrder(ms, from, |patch|) && 0 <= from
    decreases |ms|
  {
    if ms == [] then patch[from..]
    else
      patch[from..ms[0].offset] + repls[0] + Rewritten(patch, ms[1..], repls[1..], ms[0].offset + ms[0].length)
  }

  /** The running `delta` is right: replacing match by match in the edited
      buffer gives the rewrite computed in the decoded buffer's offsets. */
  lemma {:induction false} PatchLoopRewrites(orig: seq<Byte>, ms: seq<Instr>, repls: seq<seq<Byte>>,
                                             delta: int, prefix: seq<Byte>, from: int)
    requires |repls| == |ms|
    requires InOrder(ms, from, |orig|) && 0 <= from
    requires |prefix| == from + delta
    ensures PatchLoop(prefix + orig[from..], ms, repls, delta) == prefix + Rewritten(orig, ms, repls, from)
    decreases |ms|
  {
    if ms != [] {
      var m := ms[0];
      var repl := repls[0];
      var end := m.offset + m.length;
      var prefix' := prefix + orig[from..m.offset] + repl;
      SpliceRewrites(orig, prefix, from, m.offset, end, repl);
      PatchLoopRewrites(orig, ms[1..], repls[1..], delta + |repl| - m.length, prefix', end);
      var tail := Rewritten(orig, ms[1..], repls[1..], end);
      Regroup(prefix, orig[from..m.offset], repl, tail);
      RewrittenCons(orig, ms, repls, from);
    } else {
      assert orig[from..] == Rewritten(orig, ms, repls, from);
    }
  }

  /** The loop, run from the start, computes the rewrite. */
  lemma PatchLoopIsRewritten(patch: seq<Byte>, ms: seq<Instr>, repls: seq<seq<Byte>>)
    requires |repls| == |ms| && InOrder(ms, 0, |patch|)
    ensures PatchLoop(patch, ms, repls, 0) == Rewritten(patch, ms, repls, 0)
  {
    PatchLoopRewrites(patch, ms, repls, 0, [], 0);
    assert [] + patch[0..] == patch;
  }

  lemma RewrittenCons(patch: seq<Byte>, ms: seq<Instr>, repls: seq<seq<Byte>>, from: int)
    requires |repls| == |ms| && ms != []
    requires InOrder(ms, from, |patch|) && 0 <= from
    ensures Rewritten(patch, ms, repls, from)
         == patch[from..ms[0].offset] + repls[0] + Rewritten(patch, ms[1..], repls[1..], ms[0].offset + ms[0].length)
  {
  }

  lemma Regroup<T>(a: seq<T>, b: seq<T>, c: seq<T>, d: seq<T>)
    ensures (a + b + c) + d == a + (b + c + d)
  {
  }

  /** One replacement, in a buffer whose bytes from `from` on are still
      the decoded buffer's. */
  lemma SpliceRewrites(orig: seq<Byte>, prefix: seq<Byte>, from: int, start: int, end: int, repl: seq<Byte>)
    requires 0 <= from <= start <= end <= |orig|
    ensures SliceAssign(prefix + orig[from..], |prefix| + (start - from), |prefix| + (end - from), repl)
         == (prefix + orig[from..start] + repl) + orig[end..]
  {
    var t := orig[from..];
    SpliceAfter(prefix, t, start - from, end - from, repl);
    assert t[..start - from] == orig[from..start];
    assert t[end - from..] == orig[end..];
  }

  /** Every match and every replacement is a whole number of words. */
  predicate WordSized(ms: seq<Instr>, repls: seq<seq<Byte>>)
    requires |repls| == |ms|
    decreases |ms|
  {
    ms == [] || (ms[0].length % 2 == 0 && |repls[0]| % 2 == 0 && WordSized(ms[1..], repls[1..]))
  }

  lemma {:induction false} AllWordSized(ms: seq<Instr>, repls: seq<seq<Byte>>)
    requires |repls| == |ms|
    requires forall i :: 0 <= i < |ms| ==> ms[i].length % 2 == 0 && |repls[i]| % 2 == 0
    ensures WordSized(ms, repls)
    decreases |ms|
  {
    if ms != [] {
      AllWordSized(ms[1..], repls[1..]);
    }
  }

  /** Adjusting by whole numbers of words keeps every branch shaped. */
  lemma {:induction false} BranchesAfterShaped(p: Profile, bs: seq<Branches.Branch>, ms: seq<Instr>,
                                               repls: seq<seq<Byte>>, delta: int)
    requires |repls| == |ms| && WordSized(ms, repls)
    requires forall i :: 0 <= i < |bs| ==> Branches.Shaped(p, bs[i])
    ensures forall i :: 0 <= i < |bs| ==> Branches.Shaped(p, BranchesAfter(bs, ms, repls, delta)[i])
    decreases |ms|
  {
    if ms != [] {
      var change := |repls[0]| - ms[0].length;
      var at := ms[0].offset + delta;
      var bs1 := if change != 0 then Branches.AdjustAll(bs, at, change) else bs;
      EvenSum(|repls[0]|, ms[0].length);
      forall i | 0 <= i < |bs1|
        ensures Branches.Shaped(p, bs1[i])
      {
        Branches.AdjustShaped(p, bs[i], at, change);
      }
      BranchesAfterShaped(p, bs1, ms[1..], repls[1..], delta + change);
    }
  }

  /** Adjusting by whole numbers of words keeps every exception-table
      offset convertible. */
  lemma {:induction false} EntriesAfterAligned(p: Profile, xs: seq<ExceptionTable.Entry>, ms: seq<Instr>,
                                               repls: seq<seq<Byte>>, delta: int)
    requires |repls| == |ms| && WordSized(ms, repls) && ExceptionTable.AllAligned(p, xs)
    ensures ExceptionTable.AllAligned(p, EntriesAfter(xs, ms, repls, delta))
    decreases |ms|
  {
    if ms != [] {
      var change := |repls[0]| - ms[0].length;
      var at := ms[0].offset + delta;
      EvenSum(|repls[0]|, ms[0].length);
      ExceptionTable.AdjustAllAligned(p, xs, at, change);
      EntriesAfterAligned(p, if change != 0 then ExceptionTable.AdjustAll(xs, at, change) else xs, ms[1..], repls[1..],
                          delta + change);
    }
  }

  /** Replacing keeps the editor valid when every match and every
      replacement is a whole number of words long. */
  lemma ReplaceEachValid<C>(p: Profile, e: Editor<C>, ms: seq<Instr>, repls: seq<seq<Byte>>, delta: int)
    requires |repls| == |ms| && Valid(p, e) && WordSized(ms, repls)
    ensures Valid(p, ReplaceEach(e, ms, repls, delta))
  {
    BranchesAfterShaped(p, e.branches, ms, repls, delta);
    EntriesAfterAligned(p, e.exTable, ms, repls, delta);
  }

  /** Replacing whole words by whole words changes the length by whole
      words. */
  lemma {:induction false} GrowthEven(ms: seq<Instr>, repls: seq<seq<Byte>>, x: int)
    requires |repls| == |ms| && WordSized(ms, repls)
    ensures Growth(ms, repls, x) % 2 == 0
    decreases |ms|
  {
    if ms != [] {
      EvenSum(|repls[0]|, ms[0].length);
      GrowthEven(ms[1..], repls[1..], x);
      EvenSum(if ms[0].offset + ms[0].length <= x then |repls[0]| - ms[0].length else 0, Growth(ms[1..], repls[1..], x));
    }
  }

  /** The replacement loop leaves code of whole words. */
  lemma {:induction false} ReplaceEachWhole<C>(e: Editor<C>, ms: seq<Instr>, repls: seq<seq<Byte>>)
    requires |repls| == |ms| && InOrder(ms, 0, |e.patch|) && WordSized(ms, repls) && |e.patch| % 2 == 0
    ensures |ReplaceEach(e, ms, repls, 0).patch| % 2 == 0
  {
    PatchLoopIsRewritten(e.patch, ms, repls);
    RewrittenLength(e.patch, ms, repls, 0);
    GrowthEven(ms, repls, |e.patch|);
    EvenSum(|e.patch|, Growth(ms, repls, |e.patch|));
  }

  /** The LOAD_GLOBALs of the name at `nameIndex` in a buffer, in order. */
  function Matches(p: Profile, code: seq<Byte>, nameIndex: int): (r: seq<Instr>)
    requires |code| % 2 == 0
    ensures InOrder(r, 0, |code|)
    ensures forall i :: 0 <= i < |r| ==> r[i].length >= 2 && r[i].length % 2 == 0 && LoadsGlobal(p, r[i], nameIndex)
  {
    UnpackInOrder(p, code);
    LoadGlobalsInOrder(p, Unpack(p, code), nameIndex, 0, |code|);
    var r := LoadGlobals(p, Unpack(p, code), nameIndex);
    assert forall i :: 0 <= i < |r| ==> r[i] in Unpack(p, code);
    r
  }

  /** `Editor.replace_global_with_const`: turns every LOAD_GLOBAL of
      `name` into a LOAD_CONST of constant `constIndex`, shifting the side
      structures whenever a replacement changes the code's length.  A name
      the code object does not use changes nothing. */
  function ReplaceGlobalWithConst<C>(p: Profile, e: Editor<C>, name: string, constIndex: int): (r: Result<Editor<C>, Error>)
    requires |e.patch| % 2 == 0
    ensures name !in e.orig.names ==> r == Success(e)
    ensures r.Failure? <==>
              name in e.orig.names && ArgExtNeeded(constIndex) > 3 && Matches(p, e.patch, IndexOf(e.orig.names, name)) != []
    ensures r.Success? && name in e.orig.names && ArgExtNeeded(constIndex) <= 3 ==>
              var ms := Matches(p, e.patch, IndexOf(e.orig.names, name));
              r.value.patch == Rewritten(e.patch, ms, Replacements(p, ms, constIndex), 0)
    ensures r.Success? ==> r.value.consts == e.consts && r.value.orig == e.orig
    ensures r.Success? ==> r.value.maxAddtlStack == e.maxAddtlStack && r.value.finished == e.finished
    ensures r.Success? && Valid(p, e) ==> Valid(p, r.value)
    ensures r.Success? ==> |r.value.patch| % 2 == 0
  {
    if name !in e.orig.names then Success(e)
    else
      var ms := Matches(p, e.patch, IndexOf(e.orig.names, name));
      if ms == [] then Success(e)
      else if ArgExtNeeded(constIndex) > 3 then Failure(ArgumentTooLarge)
      else
        var repls := Replacements(p, ms, constIndex);
        PatchLoopIsRewritten(e.patch, ms, repls);
        assert Valid(p, e) ==> Valid(p, ReplaceEach(e, ms, repls, 0)) by {
          if Valid(p, e) {
            AllWordSized(ms, repls);
            ReplaceEachValid(p, e, ms, repls, 0);
          }
        }
        AllWordSized(ms, repls);
        ReplaceEachWhole(e, ms, repls);
        Success(ReplaceEach(e, ms, repls, 0))
  }

  /** The matches and their replacements are never empty. */
  lemma MatchesSized(p: Profile, code: seq<Byte>, nameIndex: int, constIndex: int)
    requires |code| % 2 == 0 && ArgExtNeeded(constIndex) <= 3
    ensures Sized(Matches(p, code, nameIndex), Replacements(p, Matches(p, code, nameIndex), constIndex))
  {
    var ms := Matches(p, code, nameIndex);
    AllSized(ms, Replacements(p, ms, constIndex));
  }

  /** A branch, line entry or exception-table entry after the replacement
      loop has adjusted each of its offsets for every match in turn, with
      the rule `adjust` applies to that offset. */
  function ShiftedBranch(b: Branches.Branch, ms: seq<Instr>, repls: seq<seq<Byte>>, delta: int): Branches.Branch
    requires |repls| == |ms|
  {
    b.(offset := Shift(b.offset, ms, repls, delta, true), target := Shift(b.target, ms, repls, delta, false))
  }

  function ShiftedLine(l: Lines.LineEntry, ms: seq<Instr>, repls: seq<seq<Byte>>, delta: int): Lines.LineEntry
    requires |repls| == |ms|
  {
    l.(start := Shift(l.start, ms, repls, delta, false), end := Shift(l.end, ms, repls, delta, false))
  }

  function ShiftedEntry(x: ExceptionTable.Entry, ms: seq<Instr>, repls: seq<seq<Byte>>, delta: int): ExceptionTable.Entry
    requires |repls| == |ms|
  {
    x.(start := Shift(x.start, ms, repls, delta, true), end := Shift(x.end, ms, repls, delta, false),
       target := Shift(x.target, ms, repls, delta, false))
  }

  /** The loop's effect on each branch, line entry and exception-table
      entry: every stored offset is adjusted for every match in turn. */
  lemma {:induction false} BranchesAfterAt(bs: seq<Branches.Branch>, ms: seq<Instr>, repls: seq<seq<Byte>>, delta: int, i: int)
    requires |repls| == |ms| && 0 <= i < |bs|
    ensures BranchesAfter(bs, ms, repls, delta)[i] == ShiftedBranch(bs[i], ms, repls, delta)
    decreases |ms|
  {
    if ms != [] {
      var at := ms[0].offset + delta;
      var c := |repls[0]| - ms[0].length;
      var bs1 := if c != 0 then Branches.AdjustAll(bs, at, c) else bs;
      var b := bs[i];
      assert bs1[i] == b.(offset := Step(b.offset, at, c, true), target := Step(b.target, at, c, false));
      ShiftCons(b.offset, ms, repls, delta, true);
      ShiftCons(b.target, ms, repls, delta, false);
      BranchesAfterAt(bs1, ms[1..], repls[1..], delta + c, i);
    }
  }

  lemma {:induction false} LinesAfterAt(ls: seq<Lines.LineEntry>, ms: seq<Instr>, repls: seq<seq<Byte>>, delta: int, i: int)
    requires |repls| == |ms| && 0 <= i < |ls|
    ensures LinesAfter(ls, ms, repls, delta)[i] == ShiftedLine(ls[i], ms, repls, delta)
    decreases |ms|
  {
    if ms != [] {
      var at := ms[0].offset + delta;
      var c := |repls[0]| - ms[0].length;
      var ls1 := if c != 0 then Lines.AdjustAll(ls, at, c) else ls;
      var l := ls[i];
      assert ls1[i] == l.(start := Step(l.start, at, c, false), end := Step(l.end, at, c, false));
      ShiftCons(l.start, ms, repls, delta, false);
      ShiftCons(l.end, ms, repls, delta, false);
      LinesAfterAt(ls1, ms[1..], repls[1..], delta + c, i);
    }
  }

  lemma {:induction false} EntriesAfterAt(xs: seq<ExceptionTable.Entry>, ms: seq<Instr>, repls: seq<seq<Byte>>, delta: int,
                                          i: int)
    requires |repls| == |ms| && 0 <= i < |xs|
    ensures EntriesAfter(xs, ms, repls, delta)[i] == ShiftedEntry(xs[i], ms, repls, delta)
    decreases |ms|
  {
    if ms != [] {
      var at := ms[0].offset + delta;
      var c := |repls[0]| - ms[0].length;
      var xs1 := if c != 0 then ExceptionTable.AdjustAll(xs, at, c) else xs;
      var x := xs[i];
      assert xs1[i] == x.(start := Step(x.start, at, c, true), end := Step(x.end, at, c, false),
                          target := Step(x.target, at, c, false));
      ShiftCons(x.start, ms, repls, delta, true);
      ShiftCons(x.end, ms, repls, delta, false);
      ShiftCons(x.target, ms, repls, delta, false);
      EntriesAfterAt(xs1, ms[1..], repls[1..], delta + c, i);
    }
  }

  /** The rewrite grows the buffer by the changes of all matches. */
  lemma {:induction false} RewrittenLength(patch: seq<Byte>, ms: seq<Instr>, repls: seq<seq<Byte>>, from: int)
    requires |repls| == |ms| && InOrder(ms, from, |patch|) && 0 <= from
    ensures |Rewritten(patch, ms, repls, from)| == |patch| - from + Growth(ms, repls, |patch|)
    decreases |ms|
  {
    if ms != [] {
      RewrittenLength(patch, ms[1..], repls[1..], ms[0].offset + ms[0].length);
    }
  }

  /** Each byte no match covers is kept, at its remapped place. */
  lemma {:induction false} RewrittenAt(patch: seq<Byte>, ms: seq<Instr>, repls: seq<seq<Byte>>, from: int, o: int)
    requires |repls| == |ms| && InOrder(ms, from, |patch|) && 0 <= from && Sized(ms, repls)
    requires from <= o < |patch| && Apart(ms, o)
    ensures 0 <= o - from + Growth(ms, repls, o) < |Rewritten(patch, ms, repls, from)|
    ensures Rewritten(patch, ms, repls, from)[o - from + Growth(ms, repls, o)] == patch[o]
    decreases |ms|
  {
    if ms != [] {
      var m := ms[0];
      var end := m.offset + m.length;
      var head := patch[from..m.offset] + repls[0];
      var tail := Rewritten(patch, ms[1..], repls[1..], end);
      RewrittenCons(patch, ms, repls, from);
      if o < m.offset {
        GrowthBefore(ms[1..], repls[1..], end, |patch|, o);
        assert (head + tail)[o - from] == patch[from..m.offset][o - from];
      } else {
        RewrittenAt(patch, ms[1..], repls[1..], end, o);
        assert (head + tail)[|head| + (o - end + Growth(ms[1..], repls[1..], o))] == tail[o - end + Growth(ms[1..], repls[1..], o)];
      }
    }
  }

  /** Line entries whose boundaries all moved to their remapped places
      still give each remapped offset its old line, provided no boundary
      and not the offset itself lies strictly inside a match. */
  lemma {:induction false} RemapLineOf(lines: seq<Lines.LineEntry>, lines': seq<Lines.LineEntry>, ms: seq<Instr>,
                                       repls: seq<seq<Byte>>, from: int, size: int, o: int)
    requires |repls| == |ms| && InOrder(ms, from, size) && Sized(ms, repls)
    requires |lines'| == |lines|
    requires forall k :: 0 <= k < |lines| ==>
               lines'[k] == lines[k].(start := Remap(ms, repls, lines[k].start), end := Remap(ms, repls, lines[k].end))
    requires forall k :: 0 <= k < |lines| ==> Outside(ms, lines[k].start) && Outside(ms, lines[k].end)
    requires Outside(ms, o)
    ensures Lines.LineOf(lines', Remap(ms, repls, o)) == Lines.LineOf(lines, o)
    decreases |lines|
  {
    if lines != [] {
      RemapOrder(ms, repls, from, size, lines[0].start, o);
      RemapOrder(ms, repls, from, size, o, lines[0].end);
      RemapLineOf(lines[1..], lines'[1..], ms, repls, from, size, o);
    }
  }

  /** Each byte no match covers is at its remapped offset. */
  predicate KeepsBytes<C>(e: Editor<C>, e': Editor<C>, ms: seq<Instr>, repls: seq<seq<Byte>>, o: int)
    requires |repls| == |ms|
  {
    0 <= o < |e.patch| && Apart(ms, o) ==>
      0 <= Remap(ms, repls, o) < |e'.patch| && e'.patch[Remap(ms, repls, o)] == e.patch[o]
  }

  /** An offset not strictly inside a match keeps its line, when no line
      boundary is strictly inside one. */
  predicate KeepsLine<C>(e: Editor<C>, e': Editor<C>, ms: seq<Instr>, repls: seq<seq<Byte>>, o: int)
    requires |repls| == |ms|
  {
    (forall k :: 0 <= k < |e.lines| ==> Outside(ms, e.lines[k].start) && Outside(ms, e.lines[k].end)) && Outside(ms, o) ==>
      Lines.LineOf(e'.lines, Remap(ms, repls, o)) == Lines.LineOf(e.lines, o)
  }

  /** Exception entry `i` protects an offset not strictly inside a match
      exactly when its new range protects the remapped offset, unless the
      entry starts at the first byte of a match; its handler is remapped. */
  predicate KeepsHandler<C>(e: Editor<C>, e': Editor<C>, ms: seq<Instr>, repls: seq<seq<Byte>>, i: int, o: int)
    requires |repls| == |ms| && |e'.exTable| == |e.exTable|
  {
    && (0 <= i < |e.exTable| && Apart(ms, e.exTable[i].start) && Outside(ms, e.exTable[i].end) && Outside(ms, o) ==>
          (ExceptionTable.Covers(e.exTable[i], o) <==> ExceptionTable.Covers(e'.exTable[i], Remap(ms, repls, o))))
    && (0 <= i < |e.exTable| && Outside(ms, e.exTable[i].target) ==>
          e'.exTable[i].target == Remap(ms, repls, e.exTable[i].target))
  }

  /** Branch `i` has its offset and its target remapped. */
  predicate KeepsBranch<C>(e: Editor<C>, e': Editor<C>, ms: seq<Instr>, repls: seq<seq<Byte>>, i: int)
    requires |repls| == |ms| && |e'.branches| == |e.branches|
  {
    && (0 <= i < |e.branches| && Apart(ms, e.branches[i].offset) ==>
          e'.branches[i].offset == Remap(ms, repls, e.branches[i].offset))
    && (0 <= i < |e.branches| && Outside(ms, e.branches[i].target) ==>
          e'.branches[i].target == Remap(ms, repls, e.branches[i].target))
  }

  /** What the replacement loop keeps, for the matches `ms` and their
      replacements `repls`: the buffer grows by their changes, and bytes,
      lines, exception protection and branches follow the remapping. */
  predicate ReplacedKeeps<C>(e: Editor<C>, e': Editor<C>, ms: seq<Instr>, repls: seq<seq<Byte>>, i: int, o: int)
    requires |repls| == |ms|
  {
    && |e'.patch| == Remap(ms, repls, |e.patch|)
    && |e'.branches| == |e.branches| && |e'.lines| == |e.lines| && |e'.exTable| == |e.exTable|
    && KeepsBytes(e, e', ms, repls, o)
    && KeepsLine(e, e', ms, repls, o)
    && KeepsHandler(e, e', ms, repls, i, o)
    && KeepsBranch(e, e', ms, repls, i)
  }

  /** `replace_global_with_const` keeps everything outside the replaced
      instructions: bytes, lines, exception protection and branches all
      follow the remapping of offsets. */
  lemma {:induction false} ReplaceKeepsCode<C>(p: Profile, e: Editor<C>, name: string, constIndex: int, i: int, o: int)
    requires |e.patch| % 2 == 0 && name in e.orig.names && ArgExtNeeded(constIndex) <= 3
    ensures ReplaceGlobalWithConst(p, e, name, constIndex).Success?
    ensures var ms := Matches(p, e.patch, IndexOf(e.orig.names, name));
            ReplacedKeeps(e, ReplaceGlobalWithConst(p, e, name, constIndex).value, ms, Replacements(p, ms, constIndex), i, o)
  {
    var ms := Matches(p, e.patch, IndexOf(e.orig.names, name));
    var repls := Replacements(p, ms, constIndex);
    MatchesSized(p, e.patch, IndexOf(e.orig.names, name), constIndex);
    assert ReplaceGlobalWithConst(p, e, name, constIndex) == Success(ReplaceEach(e, ms, repls, 0));
    ReplaceEachKeeps(e, ms, repls, i, o);
  }

  lemma {:induction false} ReplaceEachKeeps<C>(e: Editor<C>, ms: seq<Instr>, repls: seq<seq<Byte>>, i: int, o: int)
    requires |repls| == |ms| && InOrder(ms, 0, |e.patch|) && Sized(ms, repls)
    ensures ReplacedKeeps(e, ReplaceEach(e, ms, repls, 0), ms, repls, i, o)
  {
    var e' := ReplaceEach(e, ms, repls, 0);
    ReplaceEachKeepsBytes(e, ms, repls, o);
    ReplaceEachKeepsLine(e, ms, repls, o);
    ReplaceEachKeepsHandler(e, ms, repls, i, o);
    ReplaceEachKeepsBranch(e, ms, repls, i);
  }

  lemma {:induction false} ReplaceEachKeepsBytes<C>(e: Editor<C>, ms: seq<Instr>, repls: seq<seq<Byte>>, o: int)
    requires |repls| == |ms| && InOrder(ms, 0, |e.patch|) && Sized(ms, repls)
    ensures |ReplaceEach(e, ms, repls, 0).patch| == Remap(ms, repls, |e.patch|)
    ensures KeepsBytes(e, ReplaceEach(e, ms, repls, 0), ms, repls, o)
  {
    PatchLoopIsRewritten(e.patch, ms, repls);
    RewrittenLength(e.patch, ms, repls, 0);
    if 0 <= o < |e.patch| && Apart(ms, o) {
      RewrittenAt(e.patch, ms, repls, 0, o);
    }
  }

  lemma {:induction false} ReplaceEachKeepsLine<C>(e: Editor<C>, ms: seq<Instr>, repls: seq<seq<Byte>>, o: int)
    requires |repls| == |ms| && InOrder(ms, 0, |e.patch|) && Sized(ms, repls)
    ensures KeepsLine(e, ReplaceEach(e, ms, repls, 0), ms, repls, o)
  {
    if (forall k :: 0 <= k < |e.lines| ==> Outside(ms, e.lines[k].start) && Outside(ms, e.lines[k].end)) && Outside(ms, o) {
      LinesRemapped(e.lines, ms, repls, |e.patch|);
      RemapLineOf(e.lines, LinesAfter(e.lines, ms, repls, 0), ms, repls, 0, |e.patch|, o);
    }
  }

  /** Line boundaries outside the matches land at their remapped
      offsets. */
  lemma {:induction false} LinesRemapped(ls: seq<Lines.LineEntry>, ms: seq<Instr>, repls: seq<seq<Byte>>, size: int)
    requires |repls| == |ms| && InOrder(ms, 0, size) && Sized(ms, repls)
    requires forall k :: 0 <= k < |ls| ==> Outside(ms, ls[k].start) && Outside(ms, ls[k].end)
    ensures forall k :: 0 <= k < |ls| ==>
              LinesAfter(ls, ms, repls, 0)[k] == ls[k].(start := Remap(ms, repls, ls[k].start), end := Remap(ms, repls, ls[k].end))
  {
    forall k | 0 <= k < |ls|
      ensures LinesAfter(ls, ms, repls, 0)[k] == ls[k].(start := Remap(ms, repls, ls[k].start), end := Remap(ms, repls, ls[k].end))
    {
      LineRemapped(ls, ms, repls, size, k);
    }
  }

  lemma {:induction false} LineRemapped(ls: seq<Lines.LineEntry>, ms: seq<Instr>, repls: seq<seq<Byte>>, size: int, k: int)
    requires |repls| == |ms| && InOrder(ms, 0, size) && Sized(ms, repls)
    requires 0 <= k < |ls| && Outside(ms, ls[k].start) && Outside(ms, ls[k].end)
    ensures LinesAfter(ls, ms, repls, 0)[k] == ls[k].(start := Remap(ms, repls, ls[k].start), end := Remap(ms, repls, ls[k].end))
  {
    LinesAfterAt(ls, ms, repls, 0, k);
    ShiftRemapFromStart(ls[k].start, ms, repls, size, false);
    ShiftRemapFromStart(ls[k].end, ms, repls, size, false);
  }

  lemma {:induction false} ReplaceEachKeepsHandler<C>(e: Editor<C>, ms: seq<Instr>, repls: seq<seq<Byte>>, i: int, o: int)
    requires |repls| == |ms| && InOrder(ms, 0, |e.patch|) && Sized(ms, repls)
    ensures |ReplaceEach(e, ms, repls, 0).exTable| == |e.exTable|
    ensures KeepsHandler(e, ReplaceEach(e, ms, repls, 0), ms, repls, i, o)
  {
    if 0 <= i < |e.exTable| {
      EntryRemapped(e.exTable, ms, repls, |e.patch|, i, o);
    }
  }

  /** An exception-table entry whose start is apart from the matches and
      whose end is outside them protects the remapped offsets of what it
      protected, and its handler is remapped. */
  lemma {:induction false} EntryRemapped(xs: seq<ExceptionTable.Entry>, ms: seq<Instr>, repls: seq<seq<Byte>>, size: int, i: int, o: int)
    requires |repls| == |ms| && InOrder(ms, 0, size) && Sized(ms, repls) && 0 <= i < |xs|
    ensures Apart(ms, xs[i].start) && Outside(ms, xs[i].end) && Outside(ms, o) ==>
              (ExceptionTable.Covers(xs[i], o) <==> ExceptionTable.Covers(EntriesAfter(xs, ms, repls, 0)[i], Remap(ms, repls, o)))
    ensures Outside(ms, xs[i].target) ==> EntriesAfter(xs, ms, repls, 0)[i].target == Remap(ms, repls, xs[i].target)
  {
    var x := xs[i];
    EntriesAfterAt(xs, ms, repls, 0, i);
    if Apart(ms, x.start) && Outside(ms, x.end) && Outside(ms, o) {
      ShiftRemapFromStart(x.start, ms, repls, size, true);
      ShiftRemapFromStart(x.end, ms, repls, size, false);
      ApartOutside(ms, x.start);
      RemapOrder(ms, repls, 0, size, x.start, o);
      RemapOrder(ms, repls, 0, size, o, x.end);
    }
    if Outside(ms, x.target) {
      ShiftRemapFromStart(x.target, ms, repls, size, false);
    }
  }

  lemma {:induction false} ReplaceEachKeepsBranch<C>(e: Editor<C>, ms: seq<Instr>, repls: seq<seq<Byte>>, i: int)
    requires |repls| == |ms| && InOrder(ms, 0, |e.patch|) && Sized(ms, repls)
    ensures |ReplaceEach(e, ms, repls, 0).branches| == |e.branches|
    ensures KeepsBranch(e, ReplaceEach(e, ms, repls, 0), ms, repls, i)
  {
    if 0 <= i < |e.branches| {
      BranchRemapped(e.branches, ms, repls, |e.patch|, i);
    }
  }

  /** A branch apart from the matches has its offset remapped, and a
      target outside them is remapped too. */
  lemma {:induction false} BranchRemapped(bs: seq<Branches.Branch>, ms: seq<Instr>, repls: seq<seq<Byte>>, size: int, i: int)
    requires |repls| == |ms| && InOrder(ms, 0, size) && Sized(ms, repls) && 0 <= i < |bs|
    ensures Apart(ms, bs[i].offset) ==> BranchesAfter(bs, ms, repls, 0)[i].offset == Remap(ms, repls, bs[i].offset)
    ensures Outside(ms, bs[i].target) ==> BranchesAfter(bs, ms, repls, 0)[i].target == Remap(ms, repls, bs[i].target)
    ensures BranchesAfter(bs, ms, repls, 0)[i].length == bs[i].length
  {
    BranchesAfterAt(bs, ms, repls, 0, i);
    if Apart(ms, bs[i].offset) {
      ShiftRemapFromStart(bs[i].offset, ms, repls, size, true);
    }
    if Outside(ms, bs[i].target) {
      ShiftRemapFromStart(bs[i].target, ms, repls, size, false);
    }
  }

  /** `replace_global_with_const` keeps the branches laid out in the
      rewritten code, as long as no branch shares a byte with a replaced
      instruction (which holds for branches decoded from the same code). */
  lemma {:induction false} ReplaceKeepsLaid<C>(p: Profile, e: Editor<C>, name: string, constIndex: int)
    requires |e.patch| % 2 == 0 && name in e.orig.names && ArgExtNeeded(constIndex) <= 3
    requires Branches.Laid(e.branches, |e.patch|)
    requires AllClear(e.branches, Matches(p, e.patch, IndexOf(e.orig.names, name)))
    ensures ReplaceGlobalWithConst(p, e, name, constIndex).Success?
    ensures Branches.Laid(ReplaceGlobalWithConst(p, e, name, constIndex).value.branches,
                          |ReplaceGlobalWithConst(p, e, name, constIndex).value.patch|)
  {
    var ms := Matches(p, e.patch, IndexOf(e.orig.names, name));
    var repls := Replacements(p, ms, constIndex);
    MatchesSized(p, e.patch, IndexOf(e.orig.names, name), constIndex);
    assert ReplaceGlobalWithConst(p, e, name, constIndex) == Success(ReplaceEach(e, ms, repls, 0));
    ReplaceEachKeepsLaid(e, ms, repls);
  }

  /** No branch shares a byte with a match. */
  predicate AllClear(bs: seq<Branches.Branch>, ms: seq<Instr>)
    decreases |bs|
  {
    bs == [] || (Clear(ms, bs[0].offset, bs[0].offset + bs[0].length) && AllClear(bs[1..], ms))
  }

  lemma {:induction false} AllClearEach(bs: seq<Branches.Branch>, ms: seq<Instr>)
    requires AllClear(bs, ms)
    ensures forall i :: 0 <= i < |bs| ==> Clear(ms, bs[i].offset, bs[i].offset + bs[i].length)
  {
    forall i | 0 <= i < |bs|
      ensures Clear(ms, bs[i].offset, bs[i].offset + bs[i].length)
    {
      AllClearAt(bs, ms, i);
    }
  }

  lemma {:induction false} AllClearAt(bs: seq<Branches.Branch>, ms: seq<Instr>, i: int)
    requires AllClear(bs, ms) && 0 <= i < |bs|
    ensures Clear(ms, bs[i].offset, bs[i].offset + bs[i].length)
    decreases |bs|
  {
    if i > 0 {
      AllClearAt(bs[1..], ms, i - 1);
    }
  }

  lemma {:induction false} ReplaceEachKeepsLaid<C>(e: Editor<C>, ms: seq<Instr>, repls: seq<seq<Byte>>)
    requires |repls| == |ms| && InOrder(ms, 0, |e.patch|) && Sized(ms, repls)
    requires Branches.Laid(e.branches, |e.patch|)
    requires AllClear(e.branches, ms)
    ensures Branches.Laid(ReplaceEach(e, ms, repls, 0).branches, |ReplaceEach(e, ms, repls, 0).patch|)
  {
    AllClearEach(e.branches, ms);
    ReplaceEachKeepsBytes(e, ms, repls, 0);
    BranchesAfterLaid(e.branches, ms, repls, |e.patch|);
  }

  lemma {:induction false} BranchesAfterLaid(bs: seq<Branches.Branch>, ms: seq<Instr>, repls: seq<seq<Byte>>, size: int)
    requires |repls| == |ms| && InOrder(ms, 0, size) && Sized(ms, repls)
    requires Branches.Laid(bs, size)
    requires forall i :: 0 <= i < |bs| ==> Clear(ms, bs[i].offset, bs[i].offset + bs[i].length)
    ensures Branches.Laid(BranchesAfter(bs, ms, repls, 0), Remap(ms, repls, size))
  {
    AllInside(bs, ms, repls, size);
    AllApart(bs, ms, repls, size);
  }

  lemma {:induction false} AllInside(bs: seq<Branches.Branch>, ms: seq<Instr>, repls: seq<seq<Byte>>, size: int)
    requires |repls| == |ms| && InOrder(ms, 0, size) && Sized(ms, repls)
    requires Branches.Laid(bs, size)
    requires forall i :: 0 <= i < |bs| ==> Clear(ms, bs[i].offset, bs[i].offset + bs[i].length)
    ensures forall i :: 0 <= i < |bs| ==>
              (var b := BranchesAfter(bs, ms, repls, 0)[i];
               0 <= b.offset && 0 < b.length && b.offset + b.length <= Remap(ms, repls, size))
  {
    forall i | 0 <= i < |bs|
      ensures var b := BranchesAfter(bs, ms, repls, 0)[i];
              0 <= b.offset && 0 < b.length && b.offset + b.length <= Remap(ms, repls, size)
    {
      BranchInside(bs, ms, repls, size, i);
    }
  }

  lemma {:induction false} AllApart(bs: seq<Branches.Branch>, ms: seq<Instr>, repls: seq<seq<Byte>>, size: int)
    requires |repls| == |ms| && InOrder(ms, 0, size) && Sized(ms, repls)
    requires Branches.Laid(bs, size)
    requires forall i :: 0 <= i < |bs| ==> Clear(ms, bs[i].offset, bs[i].offset + bs[i].length)
    ensures forall i, j :: 0 <= i < j < |bs| ==>
              BranchesAfter(bs, ms, repls, 0)[i].offset + BranchesAfter(bs, ms, repls, 0)[i].length
              <= BranchesAfter(bs, ms, repls, 0)[j].offset
  {
    forall i, j | 0 <= i < j < |bs|
      ensures BranchesAfter(bs, ms, repls, 0)[i].offset + BranchesAfter(bs, ms, repls, 0)[i].length
           <= BranchesAfter(bs, ms, repls, 0)[j].offset
    {
      BranchesApart(bs, ms, repls, size, i, j);
    }
  }

  /** A branch clear of the matches lies inside the rewritten code. */
  lemma {:induction false} BranchInside(bs: seq<Branches.Branch>, ms: seq<Instr>, repls: seq<seq<Byte>>, size: int, i: int)
    requires |repls| == |ms| && InOrder(ms, 0, size) && Sized(ms, repls)
    requires Branches.Laid(bs, size) && 0 <= i < |bs|
    requires Clear(ms, bs[i].offset, bs[i].offset + bs[i].length)
    ensures var b := BranchesAfter(bs, ms, repls, 0)[i];
            0 <= b.offset && 0 < b.length && b.offset + b.length <= Remap(ms, repls, size)
  {
    BranchPlaced(bs, ms, repls, size, i);
  }

  /** Two branches clear of the matches stay in order, without overlap. */
  lemma {:induction false} BranchesApart(bs: seq<Branches.Branch>, ms: seq<Instr>, repls: seq<seq<Byte>>, size: int,
                                         i: int, j: int)
    requires |repls| == |ms| && InOrder(ms, 0, size) && Sized(ms, repls)
    requires Branches.Laid(bs, size) && 0 <= i < j < |bs|
    requires Clear(ms, bs[i].offset, bs[i].offset + bs[i].length)
    requires Clear(ms, bs[j].offset, bs[j].offset + bs[j].length)
    ensures BranchesAfter(bs, ms, repls, 0)[i].offset + BranchesAfter(bs, ms, repls, 0)[i].length
         <= BranchesAfter(bs, ms, repls, 0)[j].offset
  {
    BranchPlaced(bs, ms, repls, size, i);
    BranchPlaced(bs, ms, repls, size, j);
    RemapMono(ms, repls, 0, size, bs[i].offset + bs[i].length, bs[j].offset);
  }

  /** A branch clear of the matches keeps its length and lands, whole,
      inside the rewritten code. */
  lemma {:induction false} BranchPlaced(bs: seq<Branches.Branch>, ms: seq<Instr>, repls: seq<seq<Byte>>, size: int, i: int)
    requires |repls| == |ms| && InOrder(ms, 0, size) && Sized(ms, repls)
    requires Branches.Laid(bs, size) && 0 <= i < |bs|
    requires Clear(ms, bs[i].offset, bs[i].offset + bs[i].length)
    ensures BranchesAfter(bs, ms, repls, 0)[i].offset == Remap(ms, repls, bs[i].offset)
    ensures BranchesAfter(bs, ms, repls, 0)[i].length == bs[i].length
    ensures Remap(ms, repls, bs[i].offset) + bs[i].length == Remap(ms, repls, bs[i].offset + bs[i].length)
    ensures Outside(ms, bs[i].offset + bs[i].length)
    ensures 0 <= Remap(ms, repls, bs[i].offset)
    ensures Remap(ms, repls, bs[i].offset + bs[i].length) <= Remap(ms, repls, size)
  {
    var o := bs[i].offset;
    var end := o + bs[i].length;
    ClearRange(ms, repls, o, end);
    BranchRemapped(bs, ms, repls, size, i);
    BeforeOutside(ms, 0, size, 0);
    GrowthBefore(ms, repls, 0, size, 0);
    RemapMono(ms, repls, 0, size, 0, o);
    RemapMono(ms, repls, 0, size, end, size);
  }
}
