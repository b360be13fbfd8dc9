/** One branch instruction of the bytecode being patched
    (slipcover/bytecode.py, class `Branch`, lines 107-170).  The target is
    kept as an absolute byte offset, whatever the encoding of the argument,
    so that insertions can shift it; the argument is re-derived from it. */
module Branches {
  import opened Numeric
  import opened Profile
  import opened Instruction

  datatype Branch = Branch(
    offset: int,        // first byte, at the first EXTENDED_ARG if any
    length: int,        // bytes, EXTENDED_ARGs included
    opcode: Byte,
    target: int,        // absolute byte offset jumped to
    isRelative: bool,
    isBackward: bool)

  /** `Branch.__init__`: resolves the decoded argument into an absolute
      target.  Absolute branches count from the start of the code, relative
      ones from the end of the branch instruction, backward or forward. */
  function NewBranch(p: Profile, offset: int, length: int, opcode: Byte, arg: int): (b: Branch)
    ensures b.offset == offset && b.length == length && b.opcode == opcode
    ensures b.isRelative == p.ops.hasJrel(opcode) && b.isBackward == p.ops.isBackwardJump(opcode)
    ensures !b.isRelative ==> b.target == Scale(p) * arg
    ensures b.isRelative && !b.isBackward ==> b.target == offset + length + Scale(p) * arg
    ensures b.isRelative && b.isBackward ==> b.target == offset + length - Scale(p) * arg
  {
    var isRelative := p.ops.hasJrel(opcode);
    var isBackward := p.ops.isBackwardJump(opcode);
    var target :=
      if !isRelative then Branch2Offset(p, arg)
      else offset + length + Branch2Offset(p, if isBackward then -arg else arg);
    Branch(offset, length, opcode, target, isRelative, isBackward)
  }

  /** The distance (or, for an absolute branch, the target) is a whole
      number of argument units, as `offset2branch` asserts. */
  predicate ArgAligned(p: Profile, b: Branch)
  {
    if b.isRelative then Aligned(p, b.target - (b.offset + b.length)) else Aligned(p, b.target)
  }

  /** `Branch.arg`: the argument that encodes the current target. */
  function Arg(p: Profile, b: Branch): (r: int)
    requires ArgAligned(p, b)
    ensures b.isRelative ==> r >= 0 && Scale(p) * r == Abs(b.target - (b.offset + b.length))
    ensures !b.isRelative ==> Scale(p) * r == b.target
  {
    if b.isRelative then Offset2Branch(p, Abs(b.target - (b.offset + b.length)))
    else Offset2Branch(p, b.target)
  }

  /** The bytes a branch occupies: `2 + 2 * ArgExtNeeded` for its argument
      (negative, 0, when the argument is 0). */
  function LengthNeeded(p: Profile, b: Branch): int
    requires ArgAligned(p, b)
  {
    2 + 2 * ArgExtNeeded(Arg(p, b))
  }

  /** A branch whose target lies on the side its opcode jumps to, and whose
      direction flags agree with its opcode. */
  predicate Consistent(p: Profile, b: Branch)
  {
    && b.length >= 2
    && b.isRelative == p.ops.hasJrel(b.opcode)
    && b.isBackward == p.ops.isBackwardJump(b.opcode)
    && ArgAligned(p, b)
    && (b.isRelative && !b.isBackward ==> b.target >= b.offset + b.length)
    && (b.isRelative && b.isBackward ==> b.target <= b.offset + b.length)
    && (!b.isRelative ==> b.target >= 0)
  }

  /** `arg()` inverts the constructor: a branch built from a decoded
      non-negative argument re-derives exactly that argument, for absolute,
      relative-forward and relative-backward branches and either scale. */
  lemma ArgOfNewBranch(p: Profile, offset: int, length: int, opcode: Byte, arg: nat)
    requires length >= 2
    ensures Consistent(p, NewBranch(p, offset, length, opcode, arg))
    ensures Arg(p, NewBranch(p, offset, length, opcode, arg)) == arg
  {
    var b := NewBranch(p, offset, length, opcode, arg);
    assert ArgAligned(p, b) by {
      if b.isRelative {
        var a: int := arg;
        a := if b.isBackward then -a else a;
        assert b.target - (b.offset + b.length) == Branch2Offset(p, a);
      }
    }
  }

  /** Conversely, re-building a consistent branch from its own argument
      gives back the same branch: the argument loses nothing. */
  lemma NewBranchOfArg(p: Profile, b: Branch)
    requires Consistent(p, b)
    ensures Arg(p, b) >= 0
    ensures NewBranch(p, b.offset, b.length, b.opcode, Arg(p, b)) == b
  {
  }

  /** `Branch.adjust`: shifts the branch for `insertLength` bytes inserted at
      `insertOffset`.  A branch starting at the insertion point moves; a
      target equal to it does not (a jump there now runs the inserted code). */
  function Adjust(b: Branch, insertOffset: int, insertLength: int): (r: Branch)
    ensures r.offset == if b.offset >= insertOffset then b.offset + insertLength else b.offset
    ensures r.target == if b.target > insertOffset then b.target + insertLength else b.target
    ensures r.length == b.length && r.opcode == b.opcode
    ensures r.isRelative == b.isRelative && r.isBackward == b.isBackward
  {
    b.(offset := if b.offset >= insertOffset then b.offset + insertLength else b.offset,
       target := if b.target > insertOffset then b.target + insertLength else b.target)
  }

  /** An insertion that is not inside the branch instruction keeps a
      consistent branch consistent, and a relative branch keeps its argument
      unless the insertion falls between the branch and its target. */
  lemma AdjustConsistent(p: Profile, b: Branch, x: int, n: nat)
    requires Consistent(p, b)
    requires Aligned(p, n)
    requires x <= b.offset || b.offset + b.length <= x
    ensures Consistent(p, Adjust(b, x, n))
    ensures b.isRelative && (b.offset >= x <==> b.target > x) ==> Arg(p, Adjust(b, x, n)) == Arg(p, b)
  {
    var r := Adjust(b, x, n);
    if b.isRelative {
      assert r.target - (r.offset + r.length) == b.target - (b.offset + b.length)
        + (if b.target > x then n else 0) - (if b.offset >= x then n else 0);
    }
  }

  /** The source's loop `for b in self.branches: b.adjust(...)`.  Lines
      and exception-table entries have loops of the same shape over their
      own element types (`Lines.AdjustAll`, `ExceptionTable.AdjustAll`). */
  function AdjustAll(bs: seq<Branch>, insertOffset: int, insertLength: int): (r: seq<Branch>)
    ensures |r| == |bs|
    ensures forall i :: 0 <= i < |r| ==> r[i] == Adjust(bs[i], insertOffset, insertLength)
  {
    if bs == [] then []
    else [Adjust(bs[0], insertOffset, insertLength)] + AdjustAll(bs[1..], insertOffset, insertLength)
  }

  /** The shape every branch the patcher holds keeps: an even length of at
      least one word, and offset and target on argument-unit boundaries. */
  predicate Shaped(p: Profile, b: Branch)
  {
    b.length >= 2 && b.length % 2 == 0 && Aligned(p, b.offset) && Aligned(p, b.target)
  }

  lemma ShapedArgAligned(p: Profile, b: Branch)
    requires Shaped(p, b)
    ensures ArgAligned(p, b)
  {
  }

  /** Shifting by a whole number of words keeps a branch's shape. */
  lemma AdjustShaped(p: Profile, b: Branch, insertOffset: int, insertLength: int)
    requires Shaped(p, b) && insertLength % 2 == 0
    ensures Shaped(p, Adjust(b, insertOffset, insertLength))
  {
  }

  /** A branch decoded from a buffer has its shape. */
  lemma BranchAtShaped(p: Profile, ins: Instr)
    requires ins.offset % 2 == 0 && ins.length >= 2 && ins.length % 2 == 0
    ensures Shaped(p, BranchAt(p, ins))
  {
  }

  /** Branch instructions that lie inside a buffer of `size` bytes, in
      order and without overlapping. */
  predicate Laid(bs: seq<Branch>, size: int)
  {
    && (forall i :: 0 <= i < |bs| ==> 0 <= bs[i].offset && 0 < bs[i].length && bs[i].offset + bs[i].length <= size)
    && (forall i, j :: 0 <= i < j < |bs| ==> bs[i].offset + bs[i].length <= bs[j].offset)
  }

  /** A branch ending before every branch of a laid-out list can go in
      front of it. */
  lemma LaidCons(b: Branch, rest: seq<Branch>, size: int)
    requires Laid(rest, size)
    requires 0 <= b.offset && 0 < b.length && b.offset + b.length <= size
    requires forall j :: 0 <= j < |rest| ==> b.offset + b.length <= rest[j].offset
    ensures Laid([b] + rest, size)
  {
    var bs := [b] + rest;
    assert forall i :: 1 <= i < |bs| ==> bs[i] == rest[i - 1];
  }

  /** An insertion into the buffer keeps the branches laid out in it, even
      one that falls inside a branch instruction. */
  lemma AdjustAllLaid(bs: seq<Branch>, size: int, insertOffset: int, insertLength: nat)
    requires Laid(bs, size) && 0 <= insertOffset <= size
    ensures Laid(AdjustAll(bs, insertOffset, insertLength), size + insertLength)
  {
  }

  /** `Branch.adjust_length`: grows the branch if its argument now needs more
      EXTENDED_ARGs than it has room for, returning the number of bytes
      added.  The new prefixes go in front of the opcode, so a target after
      the branch's start moves with them. */
  function AdjustLength(p: Profile, b: Branch): (r: (Branch, int))
    requires ArgAligned(p, b)
    ensures r.1 == Max(0, LengthNeeded(p, b) - b.length)
    ensures r.0.length == b.length + r.1 && r.0.length >= LengthNeeded(p, b)
    ensures r.0.offset == b.offset && r.0.opcode == b.opcode
    ensures r.0.isRelative == b.isRelative && r.0.isBackward == b.isBackward
    ensures r.0.target == if r.1 > 0 && b.target > b.offset then b.target + r.1 else b.target
  {
    var lengthNeeded := LengthNeeded(p, b);
    var change := Max(0, lengthNeeded - b.length);
    if change > 0 then
      var target := if b.target > b.offset then b.target + change else b.target;
      (b.(target := target, length := lengthNeeded), change)
    else (b, 0)
  }

  /** Growth keeps a consistent branch consistent and, for a relative
      forward branch, leaves its argument unchanged: target and end move
      together. */
  lemma AdjustLengthConsistent(p: Profile, b: Branch)
    requires Consistent(p, b)
    requires b.length % 2 == 0
    ensures Consistent(p, AdjustLength(p, b).0)
    ensures AdjustLength(p, b).0.length % 2 == 0
    ensures b.isRelative && !b.isBackward ==> Arg(p, AdjustLength(p, b).0) == Arg(p, b)
  {
    var (r, change) := AdjustLength(p, b);
    if change > 0 {
      assert r.length == LengthNeeded(p, b) == b.length + change;
      assert change % 2 == 0;
      assert Aligned(p, change) by { if p.version != Py39 { assert Scale(p) == 2; } }
      if b.isRelative {
        var d := b.target - (b.offset + b.length);
        var d' := r.target - (r.offset + r.length);
        assert d' == d || d' == d - change;
        AlignedShift(p, d, change);
      } else {
        AlignedShift(p, b.target, change);
      }
    }
  }

  /** Growth keeps a branch's shape and adds a whole number of words. */
  lemma AdjustLengthShaped(p: Profile, b: Branch)
    requires Shaped(p, b)
    ensures Shaped(p, AdjustLength(p, b).0)
    ensures AdjustLength(p, b).1 % 2 == 0
  {
  }

  /** A branch with room for its argument: the fixed point of `AdjustLength`. */
  predicate Fits(p: Profile, b: Branch)
    requires ArgAligned(p, b)
  {
    b.length >= LengthNeeded(p, b)
  }

  /** `Branch.code`: re-emits the branch, forcing as many EXTENDED_ARGs as
      its length has room for.  The source asserts the length suffices and
      `opcode_arg` that at most three prefixes are used. */
  function Code(p: Profile, b: Branch): (r: seq<Byte>)
    requires ArgAligned(p, b)
    requires b.length >= LengthNeeded(p, b)
    requires Max(ArgExtNeeded(Arg(p, b)), (b.length - 2) / 2) <= 3
    ensures WellFormed(p) && IsBranchOp(p, b.opcode) && b.length >= 2 && b.length % 2 == 0 ==>
              |r| == b.length && r[b.length - 2] == b.opcode
  {
    OpcodeArg(p, b.opcode, Arg(p, b), (b.length - 2) / 2)
  }

  /** A branch whose length fits its argument (the fixed point of
      `AdjustLength`) is re-emitted in exactly its length, and decoding the
      emitted bytes gives back its opcode and argument over that length. */
  lemma CodeRoundTrip(p: Profile, b: Branch)
    requires WellFormed(p) && IsBranchOp(p, b.opcode) && !IsExtendedArg(p, b.opcode)
    requires Consistent(p, b)
    requires 2 <= b.length <= 8 && b.length % 2 == 0
    requires b.length >= LengthNeeded(p, b)
    ensures Arg(p, b) >= 0
    ensures Unpack(p, Code(p, b)) == [Instr(0, b.length, b.opcode, Arg(p, b))]
  {
    NewBranchOfArg(p, b);
    OpcodeArgRoundTrip(p, b.opcode, Arg(p, b), (b.length - 2) / 2);
  }

  /** `Branch.from_code`, over a decoded buffer: one branch per instruction
      with a branch opcode, in order. */
  function BranchesOf(p: Profile, instrs: seq<Instr>): (r: seq<Branch>)
    ensures |r| <= |instrs|
    ensures forall j :: 0 <= j < |r| ==> IsBranchOp(p, r[j].opcode)
    ensures forall j :: 0 <= j < |r| ==> exists i :: 0 <= i < |instrs| && r[j] == BranchAt(p, instrs[i])
    ensures forall i :: 0 <= i < |instrs| && IsBranchOp(p, instrs[i].opcode) ==> BranchAt(p, instrs[i]) in r
  {
    if instrs == [] then []
    else
      var rest := BranchesOf(p, instrs[1..]);
      var r := if IsBranchOp(p, instrs[0].opcode) then [BranchAt(p, instrs[0])] + rest else rest;
      BranchesOfCons(p, instrs, rest, r);
      r
  }

  /** The postcondition of `BranchesOf` carries over from the tail. */
  lemma BranchesOfCons(p: Profile, instrs: seq<Instr>, rest: seq<Branch>, r: seq<Branch>)
    requires instrs != []
    requires |rest| <= |instrs| - 1
    requires forall j :: 0 <= j < |rest| ==> IsBranchOp(p, rest[j].opcode)
    requires forall j :: 0 <= j < |rest| ==> exists i :: 0 <= i < |instrs[1..]| && rest[j] == BranchAt(p, instrs[1..][i])
    requires forall i :: 0 <= i < |instrs[1..]| && IsBranchOp(p, instrs[1..][i].opcode) ==> BranchAt(p, instrs[1..][i]) in rest
    requires r == if IsBranchOp(p, instrs[0].opcode) then [BranchAt(p, instrs[0])] + rest else rest
    ensures |r| <= |instrs|
    ensures forall j :: 0 <= j < |r| ==> IsBranchOp(p, r[j].opcode)
    ensures forall j :: 0 <= j < |r| ==> exists i :: 0 <= i < |instrs| && r[j] == BranchAt(p, instrs[i])
    ensures forall i :: 0 <= i < |instrs| && IsBranchOp(p, instrs[i].opcode) ==> BranchAt(p, instrs[i]) in r
  {
    forall j | 0 <= j < |rest|
      ensures exists i :: 0 <= i < |instrs| && rest[j] == BranchAt(p, instrs[i])
    {
      var i :| 0 <= i < |instrs[1..]| && rest[j] == BranchAt(p, instrs[1..][i]);
      assert instrs[1..][i] == instrs[i + 1];
    }
    forall i | 1 <= i < |instrs| && IsBranchOp(p, instrs[i].opcode)
      ensures BranchAt(p, instrs[i]) in rest
    {
      assert instrs[1..][i - 1] == instrs[i];
    }
    if IsBranchOp(p, instrs[0].opcode) {
      forall j | 0 <= j < |r|
        ensures exists i :: 0 <= i < |instrs| && r[j] == BranchAt(p, instrs[i])
      {
        if j > 0 {
          assert r[j] == rest[j - 1];
        } else {
          assert r[0] == BranchAt(p, instrs[0]);
        }
      }
    }
  }

  function BranchAt(p: Profile, ins: Instr): Branch
  {
    NewBranch(p, ins.offset, ins.length, ins.opcode, ins.arg)
  }

  function FromCode(p: Profile, code: seq<Byte>): seq<Branch>
    requires |code| % 2 == 0
  {
    BranchesOf(p, Unpack(p, code))
  }
}
