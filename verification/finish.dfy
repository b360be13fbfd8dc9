/** `Editor.finish` (slipcover/bytecode.py, lines 529-576): grows the
    branches whose arguments no longer fit their EXTENDED_ARG prefixes,
    re-emits every branch over its bytes, and builds the line-number and
    exception tables of the patched code object. */
module Finishing {
  import opened Numeric
  import opened Wrappers
  import opened Profile
  import opened Instruction
  import opened Splice
  import opened Editing
  import Branches
  import Lines
  import ExceptionTable
  import Lnotab
  import Linetable
  import Positions

  /** The longest branch `opcode_arg` can emit: the opcode and three
      EXTENDED_ARGs. */
  const MaxBranchLength := 8

  /** The bytes the branches may still gain before they reach the longest
      encodable length.  Every growth that does not fail uses some of it up,
      which is why the growing loop of `finish` ends. */
  function Slack(bs: seq<Branches.Branch>): nat
  {
    if bs == [] then 0 else Max(0, MaxBranchLength - bs[0].length) + Slack(bs[1..])
  }

  lemma {:induction false} SlackOfLengths(a: seq<Branches.Branch>, b: seq<Branches.Branch>)
    requires |a| == |b| && forall i :: 0 <= i < |a| ==> a[i].length == b[i].length
    ensures Slack(a) == Slack(b)
    decreases |a|
  {
    if a != [] {
      assert forall i :: 0 <= i < |a| - 1 ==> a[1..][i] == a[i + 1] && b[1..][i] == b[i + 1];
      SlackOfLengths(a[1..], b[1..]);
    }
  }

  lemma {:induction false} SlackUpdate(bs: seq<Branches.Branch>, k: nat, b: Branches.Branch)
    requires k < |bs|
    ensures Slack(bs[k := b]) + Max(0, MaxBranchLength - bs[k].length) == Slack(bs) + Max(0, MaxBranchLength - b.length)
    decreases |bs|
  {
    if k == 0 {
      assert bs[k := b][1..] == bs[1..];
    } else {
      assert bs[k := b][1..] == bs[1..][k - 1 := b];
      SlackUpdate(bs[1..], k - 1, b);
    }
  }

  /** `Branch.code` for a branch with room for its argument that is short
      enough for `opcode_arg` to encode. */
  function BranchCode(p: Profile, b: Branches.Branch): seq<Byte>
    requires Room(p, b) && b.length <= MaxBranchLength
  {
    Branches.Code(p, b)
  }

  /** A branch whose length has room for its argument. */
  predicate Room(p: Profile, b: Branches.Branch)
  {
    Branches.ArgAligned(p, b) && Branches.Fits(p, b)
  }

  /** What one growth step keeps: validity, the branches' number and
      opcodes, the fields it does not touch, the branches' layout in the
      buffer, and it never adds slack. */
  ghost predicate Evolves<C>(p: Profile, e: Editor<C>, e': Editor<C>)
  {
    && Valid(p, e')
    && |e'.branches| == |e.branches|
    && (forall i :: 0 <= i < |e.branches| ==> e'.branches[i].opcode == e.branches[i].opcode)
    && e'.consts == e.consts && e'.orig == e.orig
    && e'.maxAddtlStack == e.maxAddtlStack && e'.finished == e.finished
    && Slack(e'.branches) <= Slack(e.branches)
    && (Branches.Laid(e.branches, |e.patch|) ==> Branches.Laid(e'.branches, |e'.patch|))
  }

  lemma EvolvesTrans<C>(p: Profile, e: Editor<C>, e': Editor<C>, e'': Editor<C>)
    requires Evolves(p, e, e') && Evolves(p, e', e'')
    ensures Evolves(p, e, e'')
  {
  }

  /** `n` zero bytes, the room `finish` makes for new EXTENDED_ARGs. */
  function Zeros(n: nat): (r: seq<Byte>)
    ensures |r| == n && forall i :: 0 <= i < n ==> r[i] == 0
  {
    seq(n, _ => 0)
  }

  /** Growing branch `k` of a laid-out list at its own offset keeps the list
      laid out: the branches before it stay, those after it move by the
      growth. */
  lemma GrowLaid(bs: seq<Branches.Branch>, size: int, k: nat, b: Branches.Branch, n: nat)
    requires Branches.Laid(bs, size) && k < |bs|
    requires b.offset == bs[k].offset && b.length == bs[k].length + n
    ensures Branches.Laid(Branches.AdjustAll(bs, bs[k].offset, n)[k := b], size + n)
  {
    var x := bs[k].offset;
    var r := Branches.AdjustAll(bs, x, n)[k := b];
    forall i | 0 <= i < |r|
      ensures r[i].offset == if i <= k then bs[i].offset else bs[i].offset + n
    {
      if i < k {
        assert bs[i].offset + bs[i].length <= x;
      } else if i > k {
        assert x + bs[k].length <= bs[i].offset;
      }
    }
  }

  /** One pass of the inner loop of `finish` over branch `k`:
      `adjust_length`, and if the branch grew, zero bytes in front of it and
      every other branch, line and exception-table entry shifted for them.
      A branch that would need more than three EXTENDED_ARGs stops the
      growing here with the error `opcode_arg` raises when it is emitted. */
  function Grow<C>(p: Profile, e: Editor<C>, k: nat): (r: Result<(Editor<C>, bool), Error>)
    requires Valid(p, e) && k < |e.branches|
    ensures Branches.ArgAligned(p, e.branches[k])
    ensures r.Failure? <==>
              !Branches.Fits(p, e.branches[k]) && Branches.LengthNeeded(p, e.branches[k]) > MaxBranchLength
    ensures r.Failure? ==> r.error == BranchTooLong
    ensures r.Success? ==> Evolves(p, e, r.value.0)
    ensures r.Success? ==> (r.value.1 <==> !Branches.Fits(p, e.branches[k]))
    ensures r.Success? && !r.value.1 ==> r.value.0 == e
    ensures r.Success? && r.value.1 ==> Slack(r.value.0.branches) < Slack(e.branches)
    ensures r.Success? && r.value.1 ==>
              var b := e.branches[k];
              var n := Branches.LengthNeeded(p, b) - b.length;
              && Branches.LengthNeeded(p, b) <= MaxBranchLength
              && r.value.0 == Grown(e, k, Branches.AdjustLength(p, b).0, n)
  {
    var b := e.branches[k];
    Branches.ShapedArgAligned(p, b);
    var (b2, change) := Branches.AdjustLength(p, b);
    if change == 0 then Success((e, false))
    else if b2.length > MaxBranchLength then Failure(BranchTooLong)
    else
      GrownEvolves(p, e, k, b2, change);
      Success((Grown(e, k, b2, change), true))
  }

  /** The editor once branch `k` has become `b`, `n` bytes longer: zero
      bytes in front of it, everything else shifted for them. */
  function Grown<C>(e: Editor<C>, k: nat, b: Branches.Branch, n: nat): (r: Editor<C>)
    requires k < |e.branches|
    ensures |r.branches| == |e.branches| && r.branches[k] == b
    ensures forall i :: 0 <= i < |e.branches| && i != k ==> r.branches[i] == Branches.Adjust(e.branches[i], e.branches[k].offset, n)
    ensures r.lines == Lines.AdjustAll(e.lines, e.branches[k].offset, n)
    ensures r.exTable == ExceptionTable.AdjustAll(e.exTable, e.branches[k].offset, n)
    ensures r.patch == SliceAssign(e.patch, e.branches[k].offset, e.branches[k].offset, Zeros(n))
    ensures r.consts == e.consts && r.orig == e.orig
    ensures r.maxAddtlStack == e.maxAddtlStack && r.finished == e.finished
  {
    var x := e.branches[k].offset;
    var moved := AdjustAll(e, x, n);
    moved.(branches := moved.branches[k := b], patch := SliceAssign(e.patch, x, x, Zeros(n)))
  }

  /** A growth step that `adjust_length` asks for keeps the editor valid
      and uses up slack. */
  lemma GrownEvolves<C>(p: Profile, e: Editor<C>, k: nat, b2: Branches.Branch, change: int)
    requires Valid(p, e) && k < |e.branches| && Branches.ArgAligned(p, e.branches[k])
    requires (b2, change) == Branches.AdjustLength(p, e.branches[k])
    requires change > 0 && b2.length <= MaxBranchLength
    ensures Evolves(p, e, Grown(e, k, b2, change))
    ensures Slack(Grown(e, k, b2, change).branches) < Slack(e.branches)
  {
    var b := e.branches[k];
    var moved := AdjustAll(e, b.offset, change);
    Branches.AdjustLengthShaped(p, b);
    AdjustAllValid(p, e, b.offset, change);
    var r := Grown(e, k, b2, change);
    assert r.branches == moved.branches[k := b2];
    SlackOfLengths(e.branches, moved.branches);
    SlackUpdate(moved.branches, k, b2);
    GrowKeepsLaid(e, k, b2, change);
  }

  lemma GrowKeepsLaid<C>(e: Editor<C>, k: nat, b: Branches.Branch, n: nat)
    requires k < |e.branches|
    requires b.offset == e.branches[k].offset && b.length == e.branches[k].length + n
    ensures var moved := AdjustAll(e, e.branches[k].offset, n);
            Branches.Laid(e.branches, |e.patch|) ==>
              Branches.Laid(moved.branches[k := b], |SliceAssign(e.patch, b.offset, b.offset, Zeros(n))|)
  {
    if Branches.Laid(e.branches, |e.patch|) {
      GrowLaid(e.branches, |e.patch|, k, b, n);
    }
  }

  /** The `for b in self.branches` pass of the growing loop, from branch
      `k` on, and whether any branch grew.  A pass in which none grew
      leaves the editor alone and finds every branch with room. */
  function Pass<C>(p: Profile, e: Editor<C>, k: nat): (r: Result<(Editor<C>, bool), Error>)
    requires Valid(p, e) && k <= |e.branches|
    ensures r.Failure? ==> r.error == BranchTooLong
    ensures r.Success? ==> Evolves(p, e, r.value.0)
    ensures r.Success? && r.value.1 ==> Slack(r.value.0.branches) < Slack(e.branches)
    ensures r.Success? && !r.value.1 ==>
              r.value.0 == e && forall i :: k <= i < |e.branches| ==> Room(p, e.branches[i])
    decreases |e.branches| - k
  {
    if k == |e.branches| then Success((e, false))
    else
      match Grow(p, e, k)
      case Failure(err) => Failure(err)
      case Success((e1, grew)) =>
        match Pass(p, e1, k + 1)
        case Failure(err) => Failure(err)
        case Success((e2, any)) =>
          EvolvesTrans(p, e, e1, e2);
          Success((e2, grew || any))
  }

  /** The `while any_adjusted` loop: passes until one grows nothing. */
  function Settle<C>(p: Profile, e: Editor<C>): (r: Result<Editor<C>, Error>)
    requires Valid(p, e)
    ensures r.Failure? ==> r.error == BranchTooLong
    ensures r.Success? ==> Evolves(p, e, r.value)
    ensures r.Success? ==> forall i :: 0 <= i < |r.value.branches| ==> Room(p, r.value.branches[i])
    decreases Slack(e.branches)
  {
    match Pass(p, e, 0)
    case Failure(err) => Failure(err)
    case Success((e1, any)) =>
      if any then
        var r := Settle(p, e1);
        if r.Success? then EvolvesTrans(p, e, e1, r.value); r else r
      else Success(e1)
  }

  /** A settled editor is left alone: when every branch has room, no pass
      grows anything. */
  lemma {:induction false} PassFixed<C>(p: Profile, e: Editor<C>, k: nat)
    requires Valid(p, e) && k <= |e.branches|
    requires forall i :: k <= i < |e.branches| ==> Room(p, e.branches[i])
    ensures Pass(p, e, k) == Success((e, false))
    decreases |e.branches| - k
  {
    if k < |e.branches| {
      assert Grow(p, e, k) == Success((e, false));
      PassFixed(p, e, k + 1);
    }
  }

  /** `Settle` is idempotent: its result is its own fixed point. */
  lemma SettleFixed<C>(p: Profile, e: Editor<C>)
    requires Valid(p, e)
    requires forall i :: 0 <= i < |e.branches| ==> Room(p, e.branches[i])
    ensures Settle(p, e) == Success(e)
  {
    PassFixed(p, e, 0);
  }

  /** What inserting `n` bytes at `x` keeps, for byte `i` and offset `o`:
      every old byte is at its moved offset, the new bytes are zero, every
      old offset keeps its line and its exception-table protection, and the
      new bytes belong to the line of the offset they were inserted at. */
  predicate KeepsCode(patch: seq<Byte>, lines: seq<Lines.LineEntry>, exTable: seq<ExceptionTable.Entry>,
                      patch': seq<Byte>, lines': seq<Lines.LineEntry>, exTable': seq<ExceptionTable.Entry>,
                      x: int, n: int, i: int, o: int)
  {
    && |patch'| == |patch| + n
    && |exTable'| == |exTable|
    && (0 <= i < |patch| ==> 0 <= Moved(i, x, n) < |patch'| && patch'[Moved(i, x, n)] == patch[i])
    && (x <= i < x + n ==> 0 <= i < |patch'| && patch'[i] == 0)
    && Lines.LineOf(lines', Moved(o, x, n)) == Lines.LineOf(lines, o)
    && (x <= o < x + n ==> Lines.LineOf(lines', o) == Lines.LineOf(lines, x))
    && (0 <= i < |exTable| ==>
          (ExceptionTable.Covers(exTable[i], o) <==> ExceptionTable.Covers(exTable'[i], Moved(o, x, n))))
  }

  /** A growth step inserts zero bytes like `insert_function_call` inserts
      a call, in front of the branch that grew (`Grow`'s result when it
      grows is `Grown`). */
  lemma GrownKeepsCode<C>(e: Editor<C>, k: nat, b: Branches.Branch, n: nat, i: int, o: int)
    requires k < |e.branches| && 0 <= e.branches[k].offset <= |e.patch|
    ensures var e' := Grown(e, k, b, n);
            KeepsCode(e.patch, e.lines, e.exTable, e'.patch, e'.lines, e'.exTable, e.branches[k].offset, n, i, o)
  {
    ShiftKeepsCode(e.patch, e.lines, e.exTable, e.branches[k].offset, n, i, o);
  }

  /** Inserting `n` zero bytes at `x` and shifting the line and
      exception-table entries for them. */
  lemma ShiftKeepsCode(patch: seq<Byte>, lines: seq<Lines.LineEntry>, exTable: seq<ExceptionTable.Entry>, x: int, n: nat, i: int, o: int)
    requires 0 <= x <= |patch|
    ensures KeepsCode(patch, lines, exTable, SliceAssign(patch, x, x, Zeros(n)), Lines.AdjustAll(lines, x, n),
                      ExceptionTable.AdjustAll(exTable, x, n), x, n, i, o)
  {
    InsertMoves(patch, x, Zeros(n), i);
    InsertMoves(patch, x, Zeros(n), i - x);
    Lines.AdjustAllLineOf(lines, x, n, o);
    if 0 <= i < |exTable| {
      ExceptionTable.AdjustKeepsOffsets(exTable[i], x, n, o);
    }
  }

  /** Python's `patch[i]`: a negative index counts from the end, and one
      out of range raises `IndexError` (`None` here). */
  function PyIndex(i: int, n: nat): (r: Option<nat>)
    ensures r.Some? <==> -(n as int) <= i < n
    ensures r.Some? ==> r.value < n && (i >= 0 ==> r.value == i) && (i < 0 ==> r.value == i + n)
  {
    if 0 <= i < n then Some(i) else if -(n as int) <= i < 0 then Some(i + n) else None
  }

  /** `finish`'s assertion that the byte before a branch's end holds its
      opcode. */
  predicate OpcodeAt(patch: seq<Byte>, b: Branches.Branch)
  {
    var at := PyIndex(b.offset + b.length - 2, |patch|);
    at.Some? && patch[at.value] == b.opcode
  }

  /** What `Branch.code` gives for each branch `opcode_arg` can encode.
      A branch too long for it gets no bytes: emission stops at it. */
  function Codes(p: Profile, bs: seq<Branches.Branch>): (r: seq<seq<Byte>>)
    requires forall i :: 0 <= i < |bs| ==> Room(p, bs[i])
    ensures |r| == |bs|
    ensures forall i :: 0 <= i < |bs| && bs[i].length <= MaxBranchLength ==> Room(p, bs[i]) && r[i] == BranchCode(p, bs[i])
  {
    seq(|bs|, i requires 0 <= i < |bs| => assert Room(p, bs[i]); if bs[i].length <= MaxBranchLength then BranchCode(p, bs[i]) else [])
  }

  /** The loop writing `Branch.code` over every branch from the `k`-th on,
      in list order, given the codes.  It fails where `finish` asserts a
      branch's opcode byte or where `opcode_arg` refuses a fourth
      EXTENDED_ARG. */
  function EmitFrom(patch: seq<Byte>, bs: seq<Branches.Branch>, codes: seq<seq<Byte>>, k: nat): (r: Result<seq<Byte>, Error>)
    requires |codes| == |bs| && k <= |bs|
    ensures r.Failure? ==> r.error == OpcodeMismatch || r.error == BranchTooLong
    decreases |bs| - k
  {
    if k == |bs| then Success(patch)
    else if !OpcodeAt(patch, bs[k]) then Failure(OpcodeMismatch)
    else if bs[k].length > MaxBranchLength then Failure(BranchTooLong)
    else EmitFrom(SliceAssign(patch, bs[k].offset, bs[k].offset + bs[k].length, codes[k]), bs, codes, k + 1)
  }

  /** The branch-emitting loop of `finish`. */
  function Emit(p: Profile, patch: seq<Byte>, bs: seq<Branches.Branch>): (r: Result<seq<Byte>, Error>)
    requires forall i :: 0 <= i < |bs| ==> Room(p, bs[i])
    ensures r.Failure? ==> r.error == OpcodeMismatch || r.error == BranchTooLong
  {
    EmitFrom(patch, bs, Codes(p, bs), 0)
  }

  /** No branch from the `k`-th on occupies byte `j`. */
  predicate Free(bs: seq<Branches.Branch>, k: nat, j: int)
  {
    forall i :: k <= i < |bs| ==> !(bs[i].offset <= j < bs[i].offset + bs[i].length)
  }

  /** Branches of at least one word inside a buffer of `size` bytes, with
      codes as long as they are for every branch short enough to encode. */
  predicate Placed(bs: seq<Branches.Branch>, codes: seq<seq<Byte>>, size: int)
    requires |codes| == |bs|
  {
    forall i :: 0 <= i < |bs| ==>
      && 0 <= bs[i].offset && bs[i].length >= 2 && bs[i].offset + bs[i].length <= size
      && (bs[i].length <= MaxBranchLength ==> |codes[i]| == bs[i].length)
  }

  /** One iteration of `EmitFrom`, for a branch that passes both checks. */
  lemma EmitStep(patch: seq<Byte>, bs: seq<Branches.Branch>, codes: seq<seq<Byte>>, k: nat)
    requires |codes| == |bs| && Placed(bs, codes, |patch|) && k < |bs|
    requires OpcodeAt(patch, bs[k]) && bs[k].length <= MaxBranchLength
    ensures |codes[k]| == bs[k].length
    ensures 0 <= bs[k].offset && bs[k].offset + bs[k].length <= |patch|
    ensures var patch' := SliceAssign(patch, bs[k].offset, bs[k].offset + bs[k].length, codes[k]);
            && |patch'| == |patch|
            && EmitFrom(patch, bs, codes, k) == EmitFrom(patch', bs, codes, k + 1)
  {
    OverwriteAt(patch, bs[k].offset, codes[k], 0);
  }

  /** The buffer after the `k`-th iteration of an emission that succeeds. */
  lemma EmitNext(patch: seq<Byte>, bs: seq<Branches.Branch>, codes: seq<seq<Byte>>, k: nat, out: seq<Byte>)
    returns (patch': seq<Byte>)
    requires |codes| == |bs| && Placed(bs, codes, |patch|) && k < |bs|
    requires EmitFrom(patch, bs, codes, k) == Success(out)
    ensures |patch'| == |patch| && Placed(bs, codes, |patch'|)
    ensures EmitFrom(patch', bs, codes, k + 1) == Success(out)
  {
    EmitStep(patch, bs, codes, k);
    patch' := SliceAssign(patch, bs[k].offset, bs[k].offset + bs[k].length, codes[k]);
  }

  /** Writing one branch's code leaves the opcode byte of a later branch
      where it was. */
  lemma OpcodeAtKept(patch: seq<Byte>, b: Branches.Branch, code: seq<Byte>, c: Branches.Branch)
    requires 0 <= b.offset && |code| == b.length && b.offset + b.length <= |patch|
    requires b.offset + b.length <= c.offset && c.length >= 2
    ensures OpcodeAt(SliceAssign(patch, b.offset, b.offset + b.length, code), c) == OpcodeAt(patch, c)
  {
    OverwriteAt(patch, b.offset, code, c.offset + c.length - 2);
  }

  /** Every branch from the `k`-th on passes both checks of the emitting
      loop. */
  predicate Checked(patch: seq<Byte>, bs: seq<Branches.Branch>, k: nat)
  {
    forall i :: k <= i < |bs| ==> OpcodeAt(patch, bs[i]) && bs[i].length <= MaxBranchLength
  }

  lemma CheckedCons(patch: seq<Byte>, bs: seq<Branches.Branch>, k: nat)
    requires k < |bs|
    ensures Checked(patch, bs, k) <==>
              OpcodeAt(patch, bs[k]) && bs[k].length <= MaxBranchLength && Checked(patch, bs, k + 1)
  {
  }

  /** Writing the `k`-th branch's code keeps the later branches' checks. */
  lemma CheckedKept(patch: seq<Byte>, bs: seq<Branches.Branch>, codes: seq<seq<Byte>>, k: nat)
    requires |codes| == |bs| && Placed(bs, codes, |patch|) && Branches.Laid(bs, |patch|) && k < |bs|
    requires |codes[k]| == bs[k].length
    ensures Checked(SliceAssign(patch, bs[k].offset, bs[k].offset + bs[k].length, codes[k]), bs, k + 1) ==
              Checked(patch, bs, k + 1)
  {
    var patch' := SliceAssign(patch, bs[k].offset, bs[k].offset + bs[k].length, codes[k]);
    forall i | k < i < |bs|
      ensures OpcodeAt(patch', bs[i]) == OpcodeAt(patch, bs[i])
    {
      OpcodeAtKept(patch, bs[k], codes[k], bs[i]);
    }
  }

  /** Emission succeeds exactly when every branch's opcode byte is where it
      should be and every branch is short enough to encode, and it keeps
      the buffer's length. */
  lemma {:induction false} EmitSucceeds(patch: seq<Byte>, bs: seq<Branches.Branch>, codes: seq<seq<Byte>>, k: nat)
    requires |codes| == |bs| && Placed(bs, codes, |patch|) && Branches.Laid(bs, |patch|) && k <= |bs|
    ensures EmitFrom(patch, bs, codes, k).Success? <==> Checked(patch, bs, k)
    ensures EmitFrom(patch, bs, codes, k).Success? ==> |EmitFrom(patch, bs, codes, k).value| == |patch|
    decreases |bs| - k
  {
    if k < |bs| {
      CheckedCons(patch, bs, k);
      if OpcodeAt(patch, bs[k]) && bs[k].length <= MaxBranchLength {
        EmitStep(patch, bs, codes, k);
        CheckedKept(patch, bs, codes, k);
        EmitSucceeds(SliceAssign(patch, bs[k].offset, bs[k].offset + bs[k].length, codes[k]), bs, codes, k + 1);
      }
    }
  }

  /** Emission leaves every byte outside the branches alone. */
  lemma {:induction false} EmitKeeps(patch: seq<Byte>, bs: seq<Branches.Branch>, codes: seq<seq<Byte>>, k: nat, out: seq<Byte>, j: int)
    requires |codes| == |bs| && Placed(bs, codes, |patch|) && k <= |bs|
    requires EmitFrom(patch, bs, codes, k) == Success(out)
    requires 0 <= j < |patch| && Free(bs, k, j)
    ensures |out| == |patch| && out[j] == patch[j]
    decreases |bs| - k
  {
    if k < |bs| {
      var b := bs[k];
      EmitStep(patch, bs, codes, k);
      var patch' := SliceAssign(patch, b.offset, b.offset + b.length, codes[k]);
      OverwriteAt(patch, b.offset, codes[k], j);
      EmitKeeps(patch', bs, codes, k + 1, out, j);
    }
  }

  /** In a laid-out list no later branch shares a byte with an earlier one. */
  lemma LaterFree(bs: seq<Branches.Branch>, size: int, k: nat, j: int)
    requires Branches.Laid(bs, size) && k < |bs|
    requires bs[k].offset <= j < bs[k].offset + bs[k].length
    ensures Free(bs, k + 1, j)
  {
  }

  /** Emission writes the `k`-th branch's code over its bytes. */
  lemma EmitWritesHere(patch: seq<Byte>, bs: seq<Branches.Branch>, codes: seq<seq<Byte>>, k: nat, out: seq<Byte>, j: nat)
    requires |codes| == |bs| && Placed(bs, codes, |patch|)
    requires k < |bs| && j < bs[k].length && Free(bs, k + 1, bs[k].offset + j)
    requires EmitFrom(patch, bs, codes, k) == Success(out)
    ensures bs[k].length <= MaxBranchLength && |codes[k]| == bs[k].length
    ensures bs[k].offset + j < |out| && out[bs[k].offset + j] == codes[k][j]
  {
    var patch' := EmitNextAt(patch, bs, codes, k, out, j);
    EmitKeeps(patch', bs, codes, k + 1, out, bs[k].offset + j);
  }

  /** The `k`-th iteration of a successful emission writes the `k`-th code
      over the branch's bytes. */
  lemma EmitNextAt(patch: seq<Byte>, bs: seq<Branches.Branch>, codes: seq<seq<Byte>>, k: nat, out: seq<Byte>, j: nat)
    returns (patch': seq<Byte>)
    requires |codes| == |bs| && Placed(bs, codes, |patch|) && k < |bs| && j < bs[k].length
    requires EmitFrom(patch, bs, codes, k) == Success(out)
    ensures bs[k].length <= MaxBranchLength && |codes[k]| == bs[k].length
    ensures |patch'| == |patch| && Placed(bs, codes, |patch'|) && 0 <= bs[k].offset + j < |patch'|
    ensures EmitFrom(patch', bs, codes, k + 1) == Success(out)
    ensures patch'[bs[k].offset + j] == codes[k][j]
  {
    var b := bs[k];
    EmitStep(patch, bs, codes, k);
    patch' := SliceAssign(patch, b.offset, b.offset + b.length, codes[k]);
    WriteHere(patch, b.offset, b.length, codes[k], j);
  }

  /** Writing `code` over `length` bytes at `offset` puts its `j`-th byte
      at `offset + j`. */
  lemma WriteHere(patch: seq<Byte>, offset: int, length: int, code: seq<Byte>, j: nat)
    requires 0 <= offset && |code| == length && offset + length <= |patch| && j < length
    ensures SliceAssign(patch, offset, offset + length, code)[offset + j] == code[j]
  {
    OverwriteAt(patch, offset, code, offset + j);
  }

  /** The buffer a successful emission reaches when it gets to branch `i`. */
  lemma {:induction false} EmitAdvance(patch: seq<Byte>, bs: seq<Branches.Branch>, codes: seq<seq<Byte>>, k: nat, out: seq<Byte>, i: nat)
    returns (patch': seq<Byte>)
    requires |codes| == |bs| && Placed(bs, codes, |patch|) && k <= i <= |bs|
    requires EmitFrom(patch, bs, codes, k) == Success(out)
    ensures |patch'| == |patch| && Placed(bs, codes, |patch'|)
    ensures EmitFrom(patch', bs, codes, i) == Success(out)
    decreases i - k
  {
    if k == i {
      patch' := patch;
    } else {
      var next := EmitNext(patch, bs, codes, k, out);
      patch' := EmitAdvance(next, bs, codes, k + 1, out, i);
    }
  }

  /** Emission writes each branch's code over the branch's own bytes, when
      no later branch overwrites them. */
  lemma EmitWritesAt(patch: seq<Byte>, bs: seq<Branches.Branch>, codes: seq<seq<Byte>>, out: seq<Byte>, i: nat, j: nat)
    requires |codes| == |bs| && Placed(bs, codes, |patch|)
    requires i < |bs| && j < bs[i].length && Free(bs, i + 1, bs[i].offset + j)
    requires EmitFrom(patch, bs, codes, 0) == Success(out)
    ensures bs[i].length <= MaxBranchLength && |codes[i]| == bs[i].length
    ensures bs[i].offset + j < |out| && out[bs[i].offset + j] == codes[i][j]
  {
    var patch' := EmitAdvance(patch, bs, codes, 0, out, i);
    EmitWritesHere(patch', bs, codes, i, out, j);
  }

  /** What emitting needs of each branch to write its code in exactly its
      own length. */
  predicate Emittable(p: Profile, bs: seq<Branches.Branch>)
  {
    forall i :: 0 <= i < |bs| ==> Room(p, bs[i]) && Branches.Shaped(p, bs[i]) && IsBranchOp(p, bs[i].opcode)
  }

  lemma CodesPlaced(p: Profile, size: int, bs: seq<Branches.Branch>)
    requires WellFormed(p) && Emittable(p, bs) && Branches.Laid(bs, size)
    ensures Placed(bs, Codes(p, bs), size)
  {
    var codes := Codes(p, bs);
    forall i | 0 <= i < |bs| && bs[i].length <= MaxBranchLength
      ensures |codes[i]| == bs[i].length
    {
      assert Room(p, bs[i]) && Branches.Shaped(p, bs[i]);
    }
  }

  /** Re-emitting laid-out branches succeeds exactly when every branch's
      opcode byte is where `finish` asserts it is and every branch is short
      enough to encode, and it keeps the buffer's length. */
  lemma EmitSucceedsIff(p: Profile, patch: seq<Byte>, bs: seq<Branches.Branch>)
    requires WellFormed(p) && Emittable(p, bs) && Branches.Laid(bs, |patch|)
    ensures Emit(p, patch, bs).Success? <==> Checked(patch, bs, 0)
    ensures Emit(p, patch, bs).Success? ==> |Emit(p, patch, bs).value| == |patch|
  {
    CodesPlaced(p, |patch|, bs);
    EmitSucceeds(patch, bs, Codes(p, bs), 0);
  }

  /** Each re-emitted branch holds `Branch.code` over its own bytes. */
  lemma EmitWritesCode(p: Profile, patch: seq<Byte>, bs: seq<Branches.Branch>, i: nat, j: nat)
    requires WellFormed(p) && Emittable(p, bs) && Branches.Laid(bs, |patch|)
    requires Emit(p, patch, bs).Success?
    requires i < |bs| && j < bs[i].length
    ensures bs[i].length <= MaxBranchLength && Room(p, bs[i])
    ensures |BranchCode(p, bs[i])| == bs[i].length
    ensures bs[i].offset + j < |Emit(p, patch, bs).value|
    ensures Emit(p, patch, bs).value[bs[i].offset + j] == BranchCode(p, bs[i])[j]
  {
    var codes := Codes(p, bs);
    CodesPlaced(p, |patch|, bs);
    LaterFree(bs, |patch|, i, bs[i].offset + j);
    EmitWritesAt(patch, bs, codes, Emit(p, patch, bs).value, i, j);
  }

  /** Bytes outside every branch come through emission unchanged. */
  lemma EmitKeepsOthers(p: Profile, patch: seq<Byte>, bs: seq<Branches.Branch>, j: int)
    requires WellFormed(p) && Emittable(p, bs) && Branches.Laid(bs, |patch|)
    requires Emit(p, patch, bs).Success?
    requires 0 <= j < |patch| && Free(bs, 0, j)
    ensures |Emit(p, patch, bs).value| == |patch| && Emit(p, patch, bs).value[j] == patch[j]
  {
    CodesPlaced(p, |patch|, bs);
    EmitKeeps(patch, bs, Codes(p, bs), 0, Emit(p, patch, bs).value, j);
  }

  /** The line-number table of the interpreter generation, built by the
      source's encoders as they are written: `co_lnotab` up to 3.9,
      `co_linetable` in 3.10 and the location table from 3.11 on.  `None`
      where the source's `bytes()` call raises: a line without a number
      before 3.10, or a delta `make_lnotab` or `make_linetable` leaves
      negative.  Where no gap exceeds 254 bytes (3.10) and no numbered line
      is empty (3.11) it is the corrected encoder's table. */
  function LineTable(p: Profile, firstLineNo: int, lines: seq<Lines.LineEntry>): (r: Option<seq<Byte>>)
    ensures p.version == Py39 ==> (r.Some? <==> Lnotab.AllNumbered(lines) && Lnotab.StartsFrom(0, lines))
    ensures p.version == Py310 && Linetable.Encodable(0, lines) ==> r.Some?
    ensures p.version == Py310 && Linetable.SmallGaps(0, lines) ==>
              r == Linetable.MakeLinetable(firstLineNo, lines) && (r.Some? <==> Linetable.Encodable(0, lines))
    ensures p.version == Py311 ==> r.Some?
    ensures p.version == Py311 && Positions.NoEmptyLines(lines) ==> r == Some(Positions.MakePositions(firstLineNo, lines))
  {
    match p.version
    case Py39 => Lnotab.MakeLnotab(firstLineNo, lines)
    case Py310 => Linetable.MakeLinetableAsWritten(firstLineNo, lines)
    case Py311 => Some(Positions.MakePositionsAsWritten(firstLineNo, lines))
  }

  /** The table maps each offset to its line as the interpreter reads it:
      the line in effect there up to 3.9, the line of the entry covering it
      from 3.10 on, when no gap exceeds 254 bytes on 3.10 and, on 3.11,
      for entries the location table describes exactly with no empty
      numbered line. */
  lemma LineTableCorrect(p: Profile, firstLineNo: int, lines: seq<Lines.LineEntry>, offset: nat)
    requires LineTable(p, firstLineNo, lines).Some?
    ensures var t := LineTable(p, firstLineNo, lines).value;
            && (p.version == Py39 ==>
                  Lnotab.AllNumbered(lines) && Lnotab.LineAt(t, 0, firstLineNo, offset) == Lnotab.LineInEffect(firstLineNo, lines, offset))
            && (p.version == Py310 && Linetable.SmallGaps(0, lines) ==>
                  Linetable.LineAt(t, 0, firstLineNo, offset) == Lines.LineOf(lines, offset))
            && (p.version == Py311 && Positions.Encodable(0, lines) && Positions.NoEmptyLines(lines) ==>
                  Positions.LineAt(t, 0, firstLineNo, offset) == Lines.LineOf(lines, offset))
  {
    match p.version
    case Py39 => Lnotab.MakeLnotabCorrect(firstLineNo, lines, offset);
    case Py310 =>
      if Linetable.SmallGaps(0, lines) {
        Linetable.MakeLinetableCorrect(firstLineNo, lines, offset);
      }
    case Py311 =>
      if Positions.Encodable(0, lines) && Positions.NoEmptyLines(lines) {
        Positions.MakePositionsCorrect(firstLineNo, lines, offset);
      }
  }

  /** The fields `finish` replaces in the code object: the patched code,
      the stack size, the constants, the line-number table and, from 3.11
      on, the exception table. */
  datatype Output<C> = Output(
    code: seq<Byte>,
    stackSize: int,
    consts: seq<C>,
    lineTable: seq<Byte>,
    exceptionTable: Option<seq<Byte>>)

  /** The second half of `finish`, once every branch has room: re-emit
      the branches, build the tables, mark the editor finished. */
  function Complete<C>(p: Profile, e: Editor<C>, stackSize: int): (r: Result<(Editor<C>, Output<C>), Error>)
    requires Valid(p, e) && forall i :: 0 <= i < |e.branches| ==> Room(p, e.branches[i])
    ensures r.Failure? ==> r.error in {BranchTooLong, OpcodeMismatch, BadLineTable}
    ensures r.Success? ==>
              var (e', out) := r.value;
              && e' == e.(patch := out.code, finished := true)
              && Emit(p, e.patch, e.branches) == Success(out.code)
              && out.consts == e.consts && out.stackSize == stackSize
              && LineTable(p, e.orig.firstLineNo, e.lines) == Some(out.lineTable)
              && (out.exceptionTable.Some? <==> p.version == Py311)
              && (p.version == Py311 ==> out.exceptionTable == Some(ExceptionTable.MakeExceptionTable(p, e.exTable)))
  {
    match Emit(p, e.patch, e.branches)
    case Failure(err) => Failure(err)
    case Success(code) =>
      match LineTable(p, e.orig.firstLineNo, e.lines)
      case None => Failure(BadLineTable)
      case Some(table) =>
        var exTable := if p.version == Py311 then Some(ExceptionTable.MakeExceptionTable(p, e.exTable)) else None;
        Success((e.(patch := code, finished := true), Output(code, stackSize, e.consts, table, exTable)))
  }

  /** `Editor.finish`: grows the branches until all fit, then completes.
      Finishing twice is refused. */
  function Finish<C>(p: Profile, e: Editor<C>): (r: Result<(Editor<C>, Output<C>), Error>)
    requires Valid(p, e)
    ensures e.finished ==> r == Failure(AlreadyFinished)
    ensures r.Failure? && !e.finished ==> r.error in {BranchTooLong, OpcodeMismatch, BadLineTable}
    ensures r.Success? ==>
              var (e', out) := r.value;
              && !e.finished && e'.finished && Valid(p, e')
              && out.code == e'.patch && out.consts == e.consts
              && out.stackSize == e.orig.stackSize + e.maxAddtlStack
              && |e'.branches| == |e.branches|
              && (forall i :: 0 <= i < |e'.branches| ==> e'.branches[i].opcode == e.branches[i].opcode)
              && LineTable(p, e.orig.firstLineNo, e'.lines) == Some(out.lineTable)
              && (out.exceptionTable.Some? <==> p.version == Py311)
              && (p.version == Py311 ==> out.exceptionTable == Some(ExceptionTable.MakeExceptionTable(p, e'.exTable)))
  {
    if e.finished then Failure(AlreadyFinished)
    else
      match Settle(p, e)
      case Failure(err) => Failure(err)
      case Success(e1) => Complete(p, e1, e.orig.stackSize + e.maxAddtlStack)
  }

  /** Settling keeps what emitting relies on: branch opcodes, shapes and a
      disjoint layout inside the buffer. */
  lemma SettledEmittable<C>(p: Profile, e: Editor<C>, e1: Editor<C>)
    requires Valid(p, e) && Branches.Laid(e.branches, |e.patch|)
    requires forall k :: 0 <= k < |e.branches| ==> IsBranchOp(p, e.branches[k].opcode)
    requires Settle(p, e) == Success(e1)
    ensures Emittable(p, e1.branches) && Branches.Laid(e1.branches, |e1.patch|)
  {
    assert Evolves(p, e, e1);
    forall k | 0 <= k < |e1.branches|
      ensures Room(p, e1.branches[k]) && Branches.Shaped(p, e1.branches[k]) && IsBranchOp(p, e1.branches[k].opcode)
    {
      assert e1.branches[k].opcode == e.branches[k].opcode;
    }
  }

  /** For an editor whose branches are laid out apart, `finish` fails past
      the growing stage exactly when some branch's opcode byte is not where
      it belongs, some branch is too long, or the line table cannot be
      built. */
  lemma FinishSucceedsIff<C>(p: Profile, e: Editor<C>, e1: Editor<C>)
    requires WellFormed(p) && Valid(p, e) && !e.finished && Branches.Laid(e.branches, |e.patch|)
    requires forall k :: 0 <= k < |e.branches| ==> IsBranchOp(p, e.branches[k].opcode)
    requires Settle(p, e) == Success(e1)
    ensures Finish(p, e).Success? <==>
              Checked(e1.patch, e1.branches, 0) && LineTable(p, e.orig.firstLineNo, e1.lines).Some?
  {
    SettledEmittable(p, e, e1);
    EmitSucceedsIff(p, e1.patch, e1.branches);
  }

  /** After `finish`, every branch's bytes are its `Branch.code`, and the
      code keeps the length it had once the branches were grown. */
  lemma FinishEmitsBranches<C>(p: Profile, e: Editor<C>, e': Editor<C>, out: Output<C>, i: nat, j: nat)
    requires WellFormed(p) && Valid(p, e) && Branches.Laid(e.branches, |e.patch|)
    requires forall k :: 0 <= k < |e.branches| ==> IsBranchOp(p, e.branches[k].opcode)
    requires Finish(p, e) == Success((e', out))
    requires i < |e'.branches| && j < e'.branches[i].length
    ensures e'.branches[i].length <= MaxBranchLength && Room(p, e'.branches[i])
    ensures |BranchCode(p, e'.branches[i])| == e'.branches[i].length
    ensures e'.branches[i].offset + j < |out.code|
    ensures out.code[e'.branches[i].offset + j] == BranchCode(p, e'.branches[i])[j]
  {
    var e1 := FinishSettled(p, e, e', out);
    SettledEmittable(p, e, e1);
    EmitWritesCode(p, e1.patch, e1.branches, i, j);
  }

  /** A successful `finish` emitted the branches of the settled editor. */
  lemma FinishSettled<C>(p: Profile, e: Editor<C>, e': Editor<C>, out: Output<C>) returns (e1: Editor<C>)
    requires Valid(p, e)
    requires Finish(p, e) == Success((e', out))
    ensures Settle(p, e) == Success(e1)
    ensures e'.branches == e1.branches
    ensures Emit(p, e1.patch, e1.branches) == Success(out.code)
  {
    e1 := Settle(p, e).value;
  }
}
