/** The host-runtime facts the patcher depends on: which interpreter
    generation the bytecode targets, and the opcode tables that the source
    looks up in the `dis` module.  Both are parameters of the model. */
module Profile {
  import opened Numeric
  import opened Wrappers

  /** Interpreter generation.  `Py39` stands for every version before 3.10,
      `Py311` for 3.11 and later. */
  datatype Version = Py39 | Py310 | Py311

  /** Opcode numbers and per-opcode tables of the target interpreter, as the
      `dis` module would supply them. */
  datatype OpTable = OpTable(
    extendedArg: Byte,
    extendedArgQuick: Byte,
    cache: Byte,
    nop: Byte,
    popTop: Byte,
    loadConst: Byte,
    loadGlobal: Byte,
    pushNull: Byte,
    precall: Byte,
    call: Byte,
    callFunction: Byte,
    haveArgument: Byte,
    hasJrel: Byte -> bool,
    hasJabs: Byte -> bool,
    isBackwardJump: Byte -> bool,
    inlineCacheEntries: Byte -> nat,
    stackEffect: (Byte, Option<int>) -> int)

  datatype Profile = Profile(version: Version, ops: OpTable)

  /** Opcodes the instruction decoder folds into the next instruction's
      argument (`EXTENDED_ARG_QUICK` only exists from 3.11 on). */
  predicate IsExtendedArg(p: Profile, op: Byte)
  {
    op == p.ops.extendedArg || (p.version == Py311 && op == p.ops.extendedArgQuick)
  }

  /** Inline CACHE words that follow `op`; only 3.11+ has them. */
  function CacheEntries(p: Profile, op: Byte): nat
  {
    if p.version == Py311 then p.ops.inlineCacheEntries(op) else 0
  }

  predicate IsBranchOp(p: Profile, op: Byte)
  {
    p.ops.hasJrel(op) || p.ops.hasJabs(op)
  }

  /** Bytes per unit of a branch argument: from 3.10 on, branch arguments
      count 2-byte instruction words. */
  function Scale(p: Profile): (r: nat)
    ensures r == 1 || r == 2
  {
    if p.version == Py39 then 1 else 2
  }

  /** A byte offset that `Offset2Branch` accepts. */
  predicate Aligned(p: Profile, offset: int)
  {
    offset % Scale(p) == 0
  }

  /** Every whole number of words is aligned. */
  lemma EvenAligned(p: Profile, x: int)
    requires x % 2 == 0
    ensures Aligned(p, x)
  {
    if p.version != Py39 {
      assert Scale(p) == 2;
    }
  }

  /** Aligned offsets stay aligned under aligned shifts. */
  lemma AlignedShift(p: Profile, x: int, c: int)
    requires Aligned(p, x) && Aligned(p, c)
    ensures Aligned(p, x + c) && Aligned(p, x - c)
  {
    if p.version != Py39 {
      assert Scale(p) == 2;
    }
  }

  function Offset2Branch(p: Profile, offset: int): (r: int)
    requires Aligned(p, offset)
    ensures Scale(p) * r == offset
    ensures offset >= 0 ==> r >= 0
  {
    if p.version == Py39 then offset else offset / 2
  }

  function Branch2Offset(p: Profile, arg: int): (r: int)
    ensures Aligned(p, r)
    ensures Offset2Branch(p, r) == arg
    ensures arg >= 0 ==> r >= 0
  {
    if p.version == Py39 then arg else arg * 2
  }

  /** What the rest of the model assumes of an opcode table: the word that
      marks inline cache is not an argument prefix, and no branch opcode
      carries inline cache words (a branch's re-emitted code must fit in its
      own length). */
  predicate WellFormed(p: Profile)
  {
    && !IsExtendedArg(p, p.ops.cache)
    && forall op: Byte :: IsBranchOp(p, op) ==> CacheEntries(p, op) == 0
  }
}
