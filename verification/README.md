# A verified model of slipcover's bytecode patcher

slipcover instruments Python functions for coverage by splicing calls into
their bytecode. `slipcover/bytecode.py` does the splicing. It decodes a code
object's instructions, branches, exception table and line entries. It inserts
a call sequence or rewrites `LOAD_GLOBAL`s into `LOAD_CONST`s, keeping every
side structure in step. On `finish` it grows branches whose arguments
outgrew their `EXTENDED_ARG` prefixes, re-emits them, and rebuilds the
line-number and exception tables for the running interpreter's generation.

This project models that file in Dafny, one module per part of it:

| module | file | models |
|---|---|---|
| `Numeric` | numeric.dfy | bytes, `bit_length`, powers of two, signed bytes |
| `Wrappers` | wrappers.dfy | `Option` and `Result` |
| `Profile` | profile.dfy | the interpreter generation and the `dis` opcode tables, as a parameter; `offset2branch`/`branch2offset` |
| `Instruction` | instruction.dfy | `arg_ext_needed`, `opcode_arg`, `unpack_opargs`, `calc_max_stack` |
| `Branches` | branch.dfy | class `Branch` |
| `Varint` | varint.dfy | `append_varint`, `append_svarint`, `write_varint_be`, `read_varint_be` |
| `ExceptionTable` | exception_table.dfy | class `ExceptionTableEntry` |
| `Lines` | lines.dfy | class `LineEntry`: `adjust`, `from_code` |
| `Lnotab`, `Linetable`, `Positions` | lnotab.dfy, linetable.dfy, positions.dfy | `make_lnotab`, `make_linetable`, `make_positions` |
| `Splice` | splice.dfy | Python slice assignment on the code buffer |
| `Relocation` | relocation.dfy | where `replace_global_with_const`'s adjustments move a stored offset |
| `Editing` | editor.dfy | class `Editor` up to `replace_global_with_const` |
| `Finishing` | finish.dfy | `Editor.finish` |

The Python-version split is a `Profile` value. `Py39` stands for every version
before 3.10 and `Py311` for 3.11 and later. The `dis` tables are fields of an
`OpTable`, among them opcode numbers, `hasjrel`/`hasjabs`, inline cache counts
and `stack_effect`. Everything is a pure function over immutable datatypes.
The editor is a record, and each mutating method returns the new record. An
operation that raises in Python returns `Failure` (or `None`). The error kinds
are labels: an `assert` that fails, a byte above 255 stored into a
`bytearray`, a negative value passed to `bytes()`.

Each encoder has a partner. `opcode_arg` and `Branch.code` are proved against
`unpack_opargs`, and each varint writer against its reader. The exception
table is proved against `from_code`. Each line-table encoder is proved
against a reference decoder written after CPython's reader for that table.
The three line tables are `co_lnotab` (3.9), `co_linetable` (3.10) and the
3.11 location table. The editor operations are proved against what they
promise: old bytes, lines, protections and branch targets are kept;
replacements land where the decoded matches were; every branch is re-emitted
in place.

`replace_global_with_const` runs one loop over the matches. Each step
splices the buffer and adjusts the lines, branches and exception entries.
No structure's adjustment reads another structure, so the model follows
each of the four through the loop on its own (`PatchLoop`, `LinesAfter`,
`BranchesAfter`, `EntriesAfter`). The result is the same editor. An offset
of the decoded buffer that no match covers lands at itself plus the
changes of the matches that end at or before it (`Relocation.Remap`).

`ExceptionTableEntry.adjust` keeps `start <= end` for non-empty ranges
only: every empty range that starts at the insertion point gets a start
past its end (`ExceptionTable.AdjustEmptyRange`).

`finish` builds its line table with `make_linetable` and `make_positions`
as they are written. Two of the findings below are in those encoders, so
the table `finish` emits is proved right only where they agree with the
corrected encoders. That holds on 3.10 when no gap exceeds 254 bytes, and
on 3.11 when no numbered line is empty.

## Model

| member | source | states |
|---|---|---|
| Profile.Offset2Branch | slipcover/bytecode.py:13-25 | the branch argument times the unit scale (2 from 3.10 on, 1 before) is the byte offset; the source's evenness assertion is the precondition |
| Profile.Branch2Offset | slipcover/bytecode.py:13-25 | the offset is aligned, `offset2branch` gives the argument back, and non-negative arguments give non-negative offsets |
| Instruction.ArgExtNeededBound | slipcover/bytecode.py:48-50 | `k` EXTENDED_ARG prefixes are enough for `arg` exactly when its magnitude is below 256^(k+1) |
| Instruction.OpcodeArg | slipcover/bytecode.py:53-65 | the emitted length is 2 + 2·ext + 2·caches; prefix words are EXTENDED_ARG with the argument's bytes, most significant first; the opcode and the argument's low byte follow; then CACHE words |
| Instruction.Unpack | slipcover/bytecode.py:68-91 | decoded instructions follow one another from offset 0, each starting where the previous one ended; each is whole words inside the buffer, and its last word holds its opcode (or, on 3.11, a CACHE word) |
| Instruction.UnpackSpelled | slipcover/bytecode.py:68-91 | each decoded instruction is as the buffer spells it: EXTENDED_ARG words from its offset up to its opcode word, its opcode that word's opcode byte, its argument the argument bytes of all those words read big-endian, then exactly the CACHE words that follow (3.11 only); decoding reaches the end of the buffer except over trailing EXTENDED_ARG words that no opcode word completes |
| Instruction.OpcodeArgRoundTrip | slipcover/bytecode.py:53-91 | decoding what `opcode_arg` emits gives exactly one instruction at offset 0, spanning every emitted byte, with the encoded opcode and argument |
| Instruction.CalcMaxStack | slipcover/bytecode.py:94-104 | the result bounds the stack depth after every prefix of the decoded instructions, is 0 or reached by one of them, and equals the recursive definition `MaxStack` |
| Branches.NewBranch | slipcover/bytecode.py:110-125 | absolute targets are the scaled argument; relative ones are the branch's end plus or minus it, backward by the opcode's name |
| Branches.Arg | slipcover/bytecode.py:127-131 | the scaled argument is the distance from the branch's end to the target (relative) or the target itself (absolute) |
| Branches.ArgOfNewBranch | slipcover/bytecode.py:110-131 | `arg()` gives back the argument a branch was built from, for absolute, relative-forward and relative-backward branches at either scale |
| Branches.NewBranchOfArg | slipcover/bytecode.py:110-131 | rebuilding a consistent branch from its own `arg()` gives the same branch |
| Branches.Adjust | slipcover/bytecode.py:133-138 | the offset moves iff it is at or after the insertion point, the target iff strictly after; length, opcode and direction stay |
| Branches.AdjustConsistent | slipcover/bytecode.py:133-138 | an insertion outside the branch keeps it consistent; a relative branch keeps its argument unless the insertion falls between it and its target |
| Branches.AdjustAllLaid | slipcover/bytecode.py:133-138 | shifting every branch for an insertion keeps them ordered, disjoint and inside the longer buffer |
| Branches.AdjustLength | slipcover/bytecode.py:140-152 | returns max(0, 2+2·arg_ext_needed(arg()) − length); the length grows by it and never shrinks; the target moves by it iff it lies after the branch's start |
| Branches.AdjustLengthConsistent | slipcover/bytecode.py:140-152 | growth keeps a branch consistent and word-sized, and a relative forward branch keeps its argument |
| Branches.Code | slipcover/bytecode.py:154-157 | a branch is re-emitted in exactly its length with its opcode at `length - 2` (for branch opcodes, which carry no CACHE words) |
| Branches.CodeRoundTrip | slipcover/bytecode.py:154-157 | decoding a re-emitted branch gives one instruction over its whole length with its opcode and `arg()` |
| Branches.BranchesOf | slipcover/bytecode.py:160-170 | every result is a branch built from a decoded instruction with a branch opcode, and every such instruction gives one |
| Editing.FromCodeShaped | slipcover/bytecode.py:160-170 | branches found in a buffer are word-sized and aligned, and lie in order without overlap inside it |
| Varint.AppendVarint | slipcover/bytecode.py:173-179 | every byte but the last has 0x40 set (and is below 0x80); the last is at most 0x3f |
| Varint.AppendVarintRoundTrip | slipcover/bytecode.py:173-179 | a lowest-chunk-first reader gives back `n` and the bytes after the encoding, for every `n >= 0` |
| Varint.ZigZag | slipcover/bytecode.py:182-184 | the zig-zag value is odd exactly for negative numbers |
| Varint.AppendSvarintRoundTrip | slipcover/bytecode.py:182-184 | the signed reader gives back every integer, negative or not, and the bytes after the encoding |
| Varint.WriteVarintBe | slipcover/bytecode.py:187-196 | every byte but the last has 0x40 set and the last does not; the first is at least 0x80 exactly when marked; no other byte is |
| Varint.WriteVarintBeRoundTrip | slipcover/bytecode.py:187-207 | `read_varint_be` over `write_varint_be(n)`, marked with 0x80 or not, gives back `n` and the rest of the input |
| Varint.ReadBeIgnoresMark | slipcover/bytecode.py:199-207 | a 0x80 mark on the first byte does not change what is read |
| Varint.WriteVarintBeTruncated | slipcover/bytecode.py:199-207 | an encoding cut short anywhere runs out of input before a final chunk |
| ExceptionTable.Adjust | slipcover/bytecode.py:220-228 | start moves iff the insertion point is at or before it; end and target iff strictly before them; `other` stays |
| ExceptionTable.AdjustKeepsOffsets | slipcover/bytecode.py:220-228 | an entry protects an old offset exactly when the adjusted entry protects where that offset moved |
| ExceptionTable.AdjustInserted | slipcover/bytecode.py:220-228 | inserted code is protected exactly when it goes strictly inside the range |
| ExceptionTable.AdjustNonEmpty | slipcover/bytecode.py:220-228 | a non-empty range stays non-empty and grows by the insertion exactly when it is strictly inside |
| ExceptionTable.AdjustEmptyRange | slipcover/bytecode.py:220-228 | any empty range that starts at the insertion point has its start moved past its unmoved end |
| ExceptionTable.ReplaceAtStartAsWritten | slipcover/bytecode.py:220-228 | when a replacement adjusts an entry whose range starts at the rewritten instruction, a shorter replacement brings into the range code before it that was not protected, and a longer one takes the instruction's first byte out of it |
| ExceptionTable.AdjustMissesReplacement | slipcover/bytecode.py:220-228 | on a 3.11 LOAD_GLOBAL shrunk from 12 bytes to 4, `adjust` changes whether byte 6 is protected, and the corrected adjustment does not |
| ExceptionTable.AdjustReplacedKeepsOffsets | slipcover/bytecode.py:512-524 | with only offsets strictly after the rewritten instruction moving, an entry whose boundaries are not strictly inside the instruction protects exactly the rewritten offsets of what it protected, and its handler is rewritten alike |
| ExceptionTable.AdjustAllAligned | slipcover/bytecode.py:220-228 | shifting by whole argument units keeps every stored offset convertible by `offset2branch` |
| ExceptionTable.FromTable | slipcover/bytecode.py:233-248 | every entry read has a non-negative start, an end at or after it, a non-negative target and `other`, and offsets `offset2branch` accepts |
| ExceptionTable.MakeExceptionTableRoundTrip | slipcover/bytecode.py:233-262 | `from_code` over `make_exceptiontable(entries)` gives back the same entries, for aligned entries with `start <= end` and non-negative fields |
| ExceptionTable.FromTableAppend | slipcover/bytecode.py:233-262 | encoded entries followed by any bytes read back as those entries followed by what the bytes read as |
| ExceptionTable.TruncatedEntryDropped | slipcover/bytecode.py:237-248 | an entry cut short anywhere reads as no entry: an incomplete last record is dropped when the input runs out |
| ExceptionTable.MarkedPerEntry | slipcover/bytecode.py:252-262 | the table has exactly one byte with 0x80 set per entry |
| Lines.Adjust | slipcover/bytecode.py:277-282 | start and end each move iff strictly after the insertion point; the number stays |
| Lines.AdjustKeepsOffsets | slipcover/bytecode.py:277-282 | an entry covers an old offset exactly when the adjusted entry covers where it moved |
| Lines.AdjustInserted | slipcover/bytecode.py:277-282 | an inserted byte is covered by an adjusted entry exactly when that entry covered the insertion point |
| Lines.AdjustOrdered | slipcover/bytecode.py:277-282 | an entry with start <= end keeps start <= end after an insertion of non-negative length, and one ending at or before the insertion point is left unchanged |
| Lines.AdjustAllLineOf | slipcover/bytecode.py:277-282 | after an insertion every old offset keeps its line, and every inserted byte gets the line of the insertion point |
| Lines.FromStarts | slipcover/bytecode.py:285-295 | one entry per line start, with that start and number, each ending where the next starts and the last at the end of the code |
| Lnotab.MakeLnotab | slipcover/bytecode.py:301-333 | the table is built exactly when every line has a number and the starts never go back from offset 0, and it is byte pairs |
| Lnotab.MakeLnotabCorrect | slipcover/bytecode.py:301-333 | CPython 3.9's `PyCode_Addr2Line` walk over the table gives, for every offset, the line of the last entry starting at or before it |
| Lnotab.MakeLnotabSums | slipcover/bytecode.py:301-333 | in a table that was built, the start bytes add up to the last line's start and the line bytes, read as signed, to the last line's number less `firstlineno`; the last line has a number; no entries give an empty table |
| Linetable.EncodeEntry | slipcover/bytecode.py:345-378 | in the corrected encoder an entry is encodable exactly when a numbered line starts at or after the previous end and does not end before it starts, or an unnumbered one ends after the previous end; a step is whole byte pairs, ends at the entry's end (in both encoders for a numbered line) and carries the entry's line, or the previous line for an unnumbered entry |
| Linetable.MakeLinetable | slipcover/bytecode.py:337-380 | the corrected encoder (the whole gap added to `prev_end`) builds a table exactly when every entry is encodable after the previous entry's end, and it is byte pairs |
| Linetable.MakeLinetableAsWritten | slipcover/bytecode.py:337-380 | `make_linetable` as written builds a table, of byte pairs, wherever the corrected encoder does, and the same table when no gap exceeds 254 bytes |
| Linetable.AsWrittenEncodes | slipcover/bytecode.py:345-378 | the source's encoder builds a table whenever the corrected one does, because its `prev_end` never passes the corrected one's |
| Linetable.MakeLinetableCorrect | slipcover/bytecode.py:337-380 | CPython 3.10's address-range walk over the table gives, for every offset, the line of the entry covering it, and no line where none does |
| Linetable.MakeLinetableShape | slipcover/bytecode.py:337-380 | in the corrected encoder's table no pair advances by more than 254 bytes, the advances add up to the last entry's end, and the line bytes other than 0x80, read as signed, add up to the last numbered line's number less `firstlineno` |
| Linetable.AsWrittenAgrees | slipcover/bytecode.py:345-357 | when no gap exceeds 254 bytes, whether before a numbered line or over an entry without one, the source's encoder and the corrected one produce the same table (or both none) |
| Linetable.GapBugExample | slipcover/bytecode.py:348-354 | with a first line at offset 300 the source's table puts offset 302 on line 2 instead of line 3 |
| Positions.EntryHead | slipcover/bytecode.py:399-413 | the control byte has the high bit set, the code in bits 3-6 and the unit count less one in bits 0-2 |
| Positions.MakePositionsAsWritten | slipcover/bytecode.py:384-422 | `make_positions` as written gives the corrected encoder's table when no numbered line is empty |
| Positions.MakePositionsCorrect | slipcover/bytecode.py:384-422 | CPython 3.11's location-table walk over the table gives, for every offset, the line of the entry covering it, and no line where none does |
| Positions.MakePositionsUnits | slipcover/bytecode.py:384-422 | the table is a sequence of entries whose first byte is code 15, or code 13 followed by a signed varint, and whose unit counts add up to half the last entry's end |
| Positions.AsWrittenAgrees | slipcover/bytecode.py:409-418 | when every numbered line covers at least one code unit, the source's encoder and the corrected one produce the same table |
| Positions.EmptyLineBugExample | slipcover/bytecode.py:409-418 | an empty line 5 before line 6 at offset 0 makes the source's table say line 2 for offset 0 |
| Editing.NewEditor | slipcover/bytecode.py:425-436 | the new editor holds the branches `Branch.from_code` finds, the lines `LineEntry.from_code` builds (tiling the code up to its end), and the entries `ExceptionTableEntry.from_code` reads on 3.11 and none before; it is valid, its branches are laid out in the code, and it holds the original code and constants, no extra stack, not finished |
| Editing.AddConst | slipcover/bytecode.py:439-441 | the constant is appended and its index returned, nothing else changes |
| Editing.CallSequence | slipcover/bytecode.py:447-469 | the sequence exists exactly when the argument count fits its byte (before 3.11); its length is the sum of its instructions' widths and it starts with NOP 0 |
| Editing.SkipArg | slipcover/bytecode.py:473 | the NOP's argument, scaled, is the length of the rest of the sequence |
| Editing.InsertFunctionCall | slipcover/bytecode.py:444-487 | fails exactly when the function's or an argument's constant index (on 3.11 also the argument count) needs a fourth EXTENDED_ARG, when the argument count exceeds a byte before 3.11, or when the NOP's skip argument exceeds a byte; otherwise returns the inserted length, and the code is the old code with the sequence spliced in at `offset`, NOP first with the skip argument; extra stack covers the sequence; every side structure is adjusted |
| Editing.InsertKeepsCode | slipcover/bytecode.py:476-485 | after the insertion every old byte is at its moved offset and keeps its line and exception-table protection; inserted bytes get the insertion point's line; branch offsets move, and targets move unless they were the insertion point |
| Editing.InsertKeepsValid | slipcover/bytecode.py:476-485 | inserting keeps the editor valid and its branches laid out |
| Editing.LoadGlobals | slipcover/bytecode.py:494-502 | picks exactly the LOAD_GLOBALs of the name (its index shifted right once on 3.11) |
| Editing.Matches | slipcover/bytecode.py:494-506 | the matches are word-sized LOAD_GLOBALs of the name, in order without overlap inside the buffer |
| Editing.PatchLoopRewrites | slipcover/bytecode.py:504-526 | with the running `delta`, replacing match after match in the edited buffer gives each match's replacement at its place in the decoded buffer and every other byte kept |
| Editing.ReplaceEachValid | slipcover/bytecode.py:504-526 | replacing word-sized matches by whole words keeps the editor valid: branches word-sized and aligned, exception ranges aligned |
| Editing.ReplaceEachWhole | slipcover/bytecode.py:504-526 | replacing word-sized matches, in order inside whole-word code, by whole words leaves code of whole words |
| Editing.ReplaceKeepsCode | slipcover/bytecode.py:504-526 | the rewrite succeeds, and the buffer's length is the remap of the old length; every byte outside the matches is at its remapped offset; an offset not strictly inside a match keeps its line when no line boundary is strictly inside one; exception entry `i` protects such an offset exactly when its new range protects the remapped one, for an entry whose start is outside the matches and whose end is not strictly inside one; handlers, branch offsets and branch targets are remapped |
| Editing.ReplaceKeepsLaid | slipcover/bytecode.py:504-526 | when no branch shares a byte with a match, the branches stay ordered, disjoint and inside the rewritten buffer |
| Editing.RewrittenAt | slipcover/bytecode.py:504-526 | each byte outside the matches is copied to its offset plus the changes of the matches before it |
| Editing.RemapLineOf | slipcover/bytecode.py:517-518 | line entries with every boundary remapped give each remapped offset the line the old entries gave it |
| Editing.BranchRemapped | slipcover/bytecode.py:520-521 | the loop's adjustments take a branch's offset, when apart from the matches, and its target, when not strictly inside one, to their remapped offsets; its length stays |
| Editing.EntryRemapped | slipcover/bytecode.py:523-524 | the loop's adjustments keep an entry's protection of every offset not strictly inside a match, when its start is apart from the matches and its end not strictly inside one, and remap its handler |
| Relocation.ShiftRemap | slipcover/bytecode.py:512-526 | adjusting a stored offset for each match in turn, at its position moved by the running `delta`, takes it to its remapped offset, provided no match covers it (for a range start, not even its first byte) |
| Relocation.RemapOrder | slipcover/bytecode.py:512-526 | among offsets not strictly inside a match, the remapping keeps order and strict order in both directions |
| Relocation.ClearRange | slipcover/bytecode.py:512-526 | a range that shares no byte with a match keeps its length through the remapping |
| Editing.ReplaceGlobalWithConst | slipcover/bytecode.py:490-526 | nothing changes for a name the code does not use; fails exactly when there is a match and the constant index needs a fourth EXTENDED_ARG; otherwise the code is the rewrite of every match, stays whole words, and the editor stays valid |
| Finishing.Grow | slipcover/bytecode.py:539-554 | fails exactly when the branch needs growing beyond 8 bytes; grows iff it has no room; a growth inserts zero bytes before the branch, shifts everything else, and uses up slack |
| Finishing.GrownKeepsCode | slipcover/bytecode.py:543-552 | a growth keeps every old byte at its moved offset, makes the new bytes zero, keeps lines and exception-table protection |
| Finishing.Pass | slipcover/bytecode.py:539-554 | a pass that grows nothing leaves the editor alone and finds every branch with room; one that grows reduces slack |
| Finishing.Settle | slipcover/bytecode.py:535-554 | the growing loop ends with every branch having room for its argument, the editor still valid, branch count and opcodes kept |
| Finishing.SettleFixed | slipcover/bytecode.py:535-554 | an editor whose branches all have room is a fixed point of the growing loop |
| Finishing.EmitSucceedsIff | slipcover/bytecode.py:556-558 | re-emitting laid-out branches succeeds exactly when every branch's opcode byte is where `finish` asserts it, and every branch is at most 8 bytes; the code keeps its length |
| Finishing.EmitWritesCode | slipcover/bytecode.py:556-558 | each re-emitted branch's bytes are its `Branch.code` |
| Finishing.EmitKeepsOthers | slipcover/bytecode.py:556-558 | bytes outside every branch come through emission unchanged |
| Finishing.LineTable | slipcover/bytecode.py:560-566 | the table is built by the generation's encoder as the source writes it: on 3.9 exactly when every line has a number and the starts never go back, on 3.10 at least whenever the corrected encoder accepts the entries, on 3.11 always; on 3.10 with no gap over 254 bytes and on 3.11 with no empty numbered line it is the corrected table |
| Finishing.LineTableCorrect | slipcover/bytecode.py:560-566 | the interpreter's reader maps every offset of the table `finish` emits to the line the entries give it: always on 3.9, on 3.10 when no gap exceeds 254 bytes, on 3.11 for even, ordered entries with no empty numbered line |
| Finishing.Complete | slipcover/bytecode.py:556-576 | the code is the emitted branches, the constants and stack size are passed through, the line table is what the source's encoder for the generation builds, an exception table exists exactly on 3.11 and is `make_exceptiontable`, and the editor is marked finished |
| Finishing.Finish | slipcover/bytecode.py:529-576 | a second `finish` fails; otherwise the result is valid and finished, the stack size is the original plus the extra, the constants and branch opcodes are kept, the line table is what the source's encoder for the generation builds from the final lines, and on 3.11 the exception table is `make_exceptiontable` of the final entries |
| Finishing.FinishSucceedsIff | slipcover/bytecode.py:529-576 | past the growing stage, `finish` fails exactly when some branch's opcode byte is not before its end, some branch is longer than 8 bytes, or the source's encoder for the generation cannot build the line table |
| Finishing.FinishEmitsBranches | slipcover/bytecode.py:529-558 | after `finish` every branch's bytes are its `Branch.code`, so its opcode byte sits at `offset + length - 2` |
| Splice.InsertMoves | slipcover/bytecode.py:476 | an insertion keeps every old byte at its moved offset and puts the inserted bytes at the insertion point |

## Left out

- The `dis` module's tables (opcode numbers, `hasjrel`, `hasjabs`, `opname`, `_inline_cache_entries`, `stack_effect`) are fields of the `OpTable` parameter. They are not reproduced.
- `dis.findlinestarts` is an input: the code object's `lineStarts` field.
- `types.CodeType` and `code.replace(...)`: `finish` returns an `Output` record of the fields it replaces (code, stack size, constants, line table, exception table). Every other field passes through unchanged.
- `sys.version_info`: the interpreter generation is the explicit `Profile.version`.
- Constant values are opaque (`C`); `add_const` only matters for the index it returns.
- In-place mutation: a Python method that raises part-way leaves the editor half-changed. Here the operation returns `Failure` and no editor.
- Finishing.Grow: a branch that would need more than 8 bytes stops the growing loop with `BranchTooLong`. The source keeps growing it, and later fails `opcode_arg`'s assertion when it is emitted. Both fail, at different points.
- Profile.WellFormed: branch opcodes are assumed to carry no inline CACHE words. Otherwise the source's `Branch.code` emits more than the branch's length and its opcode-position assertion fails.
- Varint.ReadVarintLe and Positions.LineAt: the reference decoders read only the entry kinds and chunk forms the encoders emit, not the full formats the interpreter accepts.
- Linetable.MakeLinetableShape: does not say that 0x80 appears only as the line byte of a gap or no-line pair, because the bytes alone do not show which pairs are gaps. `Linetable.MakeLinetableCorrect` decodes every offset instead. The shape is stated for the corrected encoder; the source's encoder produces the same table when no gap exceeds 254 bytes (`Linetable.AsWrittenAgrees`).
- Positions.MakePositionsCorrect: requires even offsets and entries that do not go back. `make_positions` halves odd lengths with floor division, and the table then describes different ranges.
- Positions.MakePositionsUnits: requires the same even offsets and entries that do not go back as `Positions.MakePositionsCorrect`.
- Editing.CallSequence: its contract gives the length and the leading NOP. Decoding the whole sequence back into its instructions is not stated.
- Finishing.LineTableCorrect: on 3.10 with a gap over 254 bytes, and on 3.11 with an empty numbered line, the table `finish` emits puts some offsets on the wrong line (see Findings), so no correctness is claimed there.
- Finishing.LineTable: on 3.10 the exact set of entries for which `make_linetable` as written builds a table is not characterised. It is shown to include every set the corrected encoder accepts (`Linetable.AsWrittenEncodes`).
- Finishing.FinishSucceedsIff: its line-table condition is `Finishing.LineTable`'s success, which on 3.10 is bounded from below only, as the line above says.
- Editing.ReplaceKeepsCode: an exception entry whose range starts at the first byte of a replaced instruction is left out of the protection clause. The source's `adjust` moves that start by the change (see Findings).
- Error kinds are labels. The source raises `AssertionError`, `ValueError`, `IndexError` or `TypeError`, and the model does not tell those apart.

## Findings

| source | as written | input that shows it | evidently intended | confidence | as-written member | corrected member |
|---|---|---|---|---|---|---|
| slipcover/bytecode.py:349-354 | after the `while gap > 254` loop, `prev_end += gap` adds only the remainder of the gap, so a gap over 254 bytes leaves `prev_end` 254·k too small and the line's own ranges too long | entries 300-302 line 2 and 302-304 line 3, first line 1: offset 302 decodes as line 2 | `prev_end` advances by the whole gap | high (not executed) | Linetable.GapBugExample | Linetable.MakeLinetableCorrect |
| slipcover/bytecode.py:409-418 | `prev_number = l.number` even when the line covers no code unit, so its delta is never emitted and the next line's delta is taken from a number the table never reached | entries 0-0 line 5 and 0-2 line 6, first line 1: offset 0 decodes as line 2 | the delta of an empty line is carried over to the next emitted entry | medium (not executed; `from_code` never builds empty lines) | Positions.EmptyLineBugExample | Positions.MakePositionsCorrect |
| slipcover/bytecode.py:223-224, 523-524 | `replace_global_with_const` adjusts exception entries with `adjust`, which moves a start equal to the rewritten instruction's offset by the change | on 3.11, a range from byte 12 to 24 starting at a 12-byte LOAD_GLOBAL replaced by 4 bytes becomes 4 to 16 and protects bytes 4 to 11, which it did not | a range starting at the rewritten instruction keeps its start, so only offsets strictly after it move | medium (not executed) | ExceptionTable.ReplaceAtStartAsWritten | ExceptionTable.AdjustReplacedKeepsOffsets |
