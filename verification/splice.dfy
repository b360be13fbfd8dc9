/** Python's slice assignment on a byte buffer, `s[lo:hi] = repl`, and
    where the bytes already there end up after an insertion.  The patcher
    edits its code buffer only this way. */
module Splice {
  import opened Numeric

  /** Where the byte at `offset` is after `length` bytes are inserted at
      `insertOffset`: everything at or after the insertion point moves. */
  function Moved(offset: int, insertOffset: int, length: int): int
  {
    if offset >= insertOffset then offset + length else offset
  }

  /** A slice bound as Python resolves it against a sequence of length `n`:
      a negative bound counts from the end, and the result is clamped to
      `[0, n]`. */
  function SliceIndex(i: int, n: nat): (r: nat)
    ensures r <= n
    ensures 0 <= i <= n ==> r == i
    ensures i > n ==> r == n
    ensures i < 0 ==> r == Max(i + n, 0)
  {
    if i < 0 then Max(i + n, 0) else if i > n then n else i
  }

  /** `s[lo:hi] = repl`.  An upper bound below the lower one makes the
      assignment an insertion at the lower one. */
  function SliceAssign<T>(s: seq<T>, lo: int, hi: int, repl: seq<T>): (r: seq<T>)
    ensures 0 <= lo <= hi <= |s| ==> |r| == |s| - (hi - lo) + |repl|
  {
    var l := SliceIndex(lo, |s|);
    var h := Max(SliceIndex(hi, |s|), l);
    s[..l] + repl + s[h..]
  }

  /** Inside the buffer, the bytes before `lo` stay, `repl` follows them,
      and the bytes from `hi` on close the buffer. */
  lemma SliceAssignParts<T>(s: seq<T>, lo: int, hi: int, repl: seq<T>)
    requires 0 <= lo <= hi <= |s|
    ensures var r := SliceAssign(s, lo, hi, repl);
            r[..lo] == s[..lo] && r[lo..lo + |repl|] == repl && r[lo + |repl|..] == s[hi..]
  {
    var r := SliceAssign(s, lo, hi, repl);
    assert r == s[..lo] + repl + s[hi..];
    assert r[lo + |repl|..] == s[hi..];
  }

  /** An insertion inside the buffer keeps every old byte, at its moved
      position, and puts the inserted bytes in the gap. */
  lemma InsertMoves<T>(s: seq<T>, x: int, repl: seq<T>, i: int)
    requires 0 <= x <= |s|
    ensures 0 <= i < |s| ==> SliceAssign(s, x, x, repl)[Moved(i, x, |repl|)] == s[i]
    ensures 0 <= i < |repl| ==> SliceAssign(s, x, x, repl)[x + i] == repl[i]
  {
    var r := SliceAssign(s, x, x, repl);
    SliceAssignParts(s, x, x, repl);
    if 0 <= i < |s| && i >= x {
      assert r[i + |repl|] == r[x + |repl|..][i - x];
    }
    if 0 <= i < |repl| {
      assert r[x + i] == r[x..x + |repl|][i];
    }
  }

  /** Overwriting bytes inside the buffer keeps its length, puts the new
      bytes in the overwritten range and leaves every other byte alone. */
  lemma OverwriteAt<T>(s: seq<T>, lo: int, repl: seq<T>, j: int)
    requires 0 <= lo && lo + |repl| <= |s|
    ensures |SliceAssign(s, lo, lo + |repl|, repl)| == |s|
    ensures 0 <= j < |s| ==>
              SliceAssign(s, lo, lo + |repl|, repl)[j] == if lo <= j < lo + |repl| then repl[j - lo] else s[j]
  {
    var r := SliceAssign(s, lo, lo + |repl|, repl);
    SliceAssignParts(s, lo, lo + |repl|, repl);
    if 0 <= j < lo {
      assert r[j] == r[..lo][j];
    } else if lo <= j < lo + |repl| {
      assert r[j] == r[lo..lo + |repl|][j - lo];
    } else if lo + |repl| <= j < |s| {
      assert r[j] == r[lo + |repl|..][j - lo - |repl|];
    }
  }
}
