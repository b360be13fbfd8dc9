/** The variable-length integer codecs of the line and exception tables
    (slipcover/bytecode.py, lines 173-207).  Both cut the number into 6-bit
    chunks and mark every chunk but the last with 0x40: the little-endian
    form puts the lowest chunk first, the big-endian form the highest. */
module Varint {
  import opened Numeric
  import opened Wrappers

  /** Whether bit 0x40 (more chunks follow) is set in `b`: the bytes
      0x40-0x7F and 0xC0-0xFF. */
  predicate Continues(b: Byte)
  {
    0x40 <= b < 0x80 || 0xC0 <= b
  }

  /** `append_varint`: an unsigned number, lowest chunk first.  (`0x40 | c`
      for a chunk `c < 64` is `0x40 + c`.) */
  function AppendVarint(n: nat): (r: seq<Byte>)
    ensures |r| >= 1
    ensures forall i :: 0 <= i < |r| - 1 ==> 0x40 <= r[i] < 0x80
    ensures r[|r| - 1] <= 0x3f
  {
    if n > 0x3f then [0x40 + n % 64] + AppendVarint(n / 64) else [n]
  }

  /** Reference decoder for `AppendVarint` (the source has none): collects
      chunks, lowest first, while 0x40 is set.  Every chunk byte is below
      0x80; a byte with the top bit set ends the number unread. */
  function ReadVarintLe(s: seq<Byte>): (r: Option<(nat, seq<Byte>)>)
    ensures r.Some? ==> |r.value.1| < |s|
  {
    if s == [] || s[0] >= 0x80 then None
    else if s[0] >= 0x40 then
      match ReadVarintLe(s[1..])
      case None => None
      case Some((v, rest)) => Some((s[0] - 0x40 + 64 * v, rest))
    else Some((s[0] as nat, s[1..]))
  }

  /** One continuation chunk read, lowest first. */
  lemma ReadLeStep(c: Byte, tail: seq<Byte>, v: nat, rest: seq<Byte>)
    requires 0x40 <= c < 0x80 && ReadVarintLe(tail) == Some((v, rest))
    ensures ReadVarintLe([c] + tail) == Some((c - 0x40 + 64 * v, rest))
  {
    assert ([c] + tail)[1..] == tail;
  }

  /** The final chunk read. */
  lemma ReadLeLast(c: Byte, tail: seq<Byte>)
    requires c < 0x40
    ensures ReadVarintLe([c] + tail) == Some((c as nat, tail))
  {
    assert ([c] + tail)[1..] == tail;
  }

  lemma {:induction false} AppendVarintRoundTrip(n: nat, rest: seq<Byte>)
    ensures ReadVarintLe(AppendVarint(n) + rest) == Some((n, rest))
    decreases n
  {
    if n > 0x3f {
      var tail := AppendVarint(n / 64) + rest;
      assert AppendVarint(n) + rest == [0x40 + n % 64] + tail;
      AppendVarintRoundTrip(n / 64, rest);
      ReadLeStep(0x40 + n % 64, tail, n / 64, rest);
    } else {
      assert AppendVarint(n) + rest == [n] + rest;
      ReadLeLast(n, rest);
    }
  }

  /** Zig-zag mapping of `append_svarint`: `n >= 0` to `2n`, `n < 0` to
      `2(-n) + 1`. */
  function ZigZag(n: int): (r: nat)
    ensures r % 2 == 1 <==> n < 0
  {
    if n < 0 then (-n) * 2 + 1 else n * 2
  }

  /** `append_svarint`: a signed number, zig-zag mapped, then unsigned. */
  function AppendSvarint(n: int): (r: seq<Byte>)
    ensures |r| >= 1
    ensures forall i :: 0 <= i < |r| - 1 ==> 0x40 <= r[i] < 0x80
    ensures r[|r| - 1] <= 0x3f
  {
    AppendVarint(ZigZag(n))
  }

  /** Reference decoder for `AppendSvarint`. */
  function ReadSvarintLe(s: seq<Byte>): (r: Option<(int, seq<Byte>)>)
    ensures r.Some? ==> |r.value.1| < |s|
  {
    match ReadVarintLe(s)
    case None => None
    case Some((v, rest)) => Some((if v % 2 == 1 then -(v / 2) else v / 2, rest))
  }

  /** The zig-zag value's low bit is the sign, the rest the magnitude, so
      signed numbers round-trip. */
  lemma AppendSvarintRoundTrip(n: int, rest: seq<Byte>)
    ensures ReadSvarintLe(AppendSvarint(n) + rest) == Some((n, rest))
  {
    AppendVarintRoundTrip(ZigZag(n), rest);
  }

  /** The number's bits above its lowest `k` chunks: Python's `n >> 6*k`. */
  function ChunkShift(n: int, k: nat): (r: int)
    ensures n >= 0 ==> r >= 0
  {
    if k == 0 then n else ChunkShift(n, k - 1) / 64
  }

  lemma {:induction false} ChunkShiftDiv(n: int, k: nat)
    ensures ChunkShift(n / 64, k) == ChunkShift(n, k + 1)
    decreases k
  {
    if k > 0 {
      ChunkShiftDiv(n, k - 1);
    }
  }

  lemma Pow2Six()
    ensures Pow2(6) == 64
  {
    assert Pow2(1) == 2;
    assert Pow2(2) == 4;
    assert Pow2(3) == 8;
    assert Pow2(4) == 16;
    assert Pow2(5) == 32;
  }

  /** A number below `64^k` has nothing left after `k` chunk shifts. */
  lemma {:induction false} ChunkShiftSmall(n: nat, k: nat)
    requires n < Pow2(6 * k)
    ensures ChunkShift(n, k) == 0
    decreases k
  {
    if k > 0 {
      Pow2Six();
      Pow2Add(6 * (k - 1), 6);
      ChunkShiftSmall(n / 64, k - 1);
      ChunkShiftDiv(n, k - 1);
    }
  }

  /** The continuation bytes of `write_varint_be` for shifts `6k`, `6(k-1)`,
      ..., 6: `0x40 | ((n >> shift) & 0x3f)`. */
  function BeChunks(n: int, k: int): (r: seq<Byte>)
    ensures |r| == Max(k, 0)
    ensures forall i :: 0 <= i < |r| ==> 0x40 <= r[i] < 0x80
    decreases k
  {
    if k <= 0 then [] else [0x40 + ChunkShift(n, k) % 64] + BeChunks(n, k - 1)
  }

  /** The number of continuation chunks `write_varint_be` emits: its loop
      runs over `range(top_bit - top_bit % 6, 0, -6)`. */
  function BeChunkCount(n: int): int
  {
    var topBit := BitLength(Abs(n)) - 1;
    (topBit - topBit % 6) / 6
  }

  /** `write_varint_be`: highest chunk first, every byte but the last marked
      with 0x40; `markFirst` (the source's `mark_first=0x80`) also sets bit
      0x80 of the first byte.  Defined for every integer, as the source is. */
  function WriteVarintBe(n: int, markFirst: bool): (r: seq<Byte>)
    ensures |r| >= 1
    ensures forall i :: 0 <= i < |r| - 1 ==> Continues(r[i])
    ensures !Continues(r[|r| - 1])
    ensures r[0] >= 0x80 <==> markFirst
    ensures forall i :: 1 <= i < |r| ==> r[i] < 0x80
    ensures !markFirst ==> r[|r| - 1] <= 0x3f
  {
    var data := BeChunks(n, BeChunkCount(n)) + [n % 64];
    if markFirst then data[0 := data[0] + 0x80] else data
  }

  /** `read_varint_be`: reads chunks, highest first, while 0x40 is set; bit
      0x80 is ignored.  `None` is the source's `StopIteration` when the
      input ends before a chunk without 0x40. */
  function ReadVarintBe(s: seq<Byte>): (r: Option<(nat, seq<Byte>)>)
    ensures r.Some? ==> |r.value.1| < |s|
  {
    ReadBeFrom(s, 0)
  }

  /** The loop of `read_varint_be` with `value` read so far.  (`value` is a
      multiple of 64 when a chunk is or-ed into it, so `|` is `+`.) */
  function ReadBeFrom(s: seq<Byte>, value: nat): (r: Option<(nat, seq<Byte>)>)
    ensures r.Some? ==> |r.value.1| < |s|
  {
    if s == [] then None
    else if Continues(s[0]) then ReadBeFrom(s[1..], (value + s[0] % 64) * 64)
    else Some((value + s[0] % 64, s[1..]))
  }

  lemma DivMod64(x: int)
    ensures (x / 64) * 64 + x % 64 == x
  {
  }

  /** One continuation chunk read. */
  lemma ReadBeStep(c: Byte, tail: seq<Byte>, value: nat)
    requires 0x40 <= c < 0x80
    ensures ReadBeFrom([c] + tail, value) == ReadBeFrom(tail, (value + (c - 0x40)) * 64)
  {
    assert ([c] + tail)[1..] == tail;
  }

  /** The final chunk read. */
  lemma ReadBeLast(c: Byte, tail: seq<Byte>, value: nat)
    requires c < 0x40
    ensures ReadBeFrom([c] + tail, value) == Some((value + c, tail))
  {
    assert ([c] + tail)[1..] == tail;
  }

  /** Reading the chunks `BeChunks(n, k)` and the final chunk, with the
      chunks above them already read, gives `n`. */
  lemma {:induction false} ReadBeChunks(n: nat, k: nat, rest: seq<Byte>)
    ensures ReadBeFrom(BeChunks(n, k) + [n % 64] + rest, ChunkShift(n, k + 1) * 64) == Some((n, rest))
    decreases k
  {
    var x := ChunkShift(n, k);
    assert ChunkShift(n, k + 1) == x / 64;
    DivMod64(x);
    if k == 0 {
      assert BeChunks(n, k) + [n % 64] + rest == [n % 64] + rest;
      ReadBeLast(n % 64, rest, ChunkShift(n, k + 1) * 64);
    } else {
      var tail := BeChunks(n, k - 1) + [n % 64] + rest;
      assert BeChunks(n, k) + [n % 64] + rest == [0x40 + x % 64] + tail;
      ReadBeStep(0x40 + x % 64, tail, ChunkShift(n, k + 1) * 64);
      ReadBeChunks(n, k - 1, rest);
    }
  }

  /** The 0x80 mark on a first byte changes neither its continuation bit
      nor its chunk. */
  lemma ReadBeIgnoresMark(s: seq<Byte>, value: nat)
    requires s != [] && s[0] < 0x80
    ensures ReadBeFrom(s[0 := s[0] + 0x80], value) == ReadBeFrom(s, value)
  {
    var t := s[0 := s[0] + 0x80];
    assert t[1..] == s[1..];
    assert Continues(t[0]) == Continues(s[0]);
    assert t[0] % 64 == s[0] % 64;
  }

  /** Enough chunks are emitted to hold the whole number. */
  lemma BeChunkCountFits(n: nat)
    ensures BeChunkCount(n) >= 0 || n == 0
    ensures ChunkShift(n, Max(BeChunkCount(n), 0) + 1) == 0
  {
    var topBit := BitLength(n) - 1;
    var k := Max(BeChunkCount(n), 0);
    if n == 0 {
      ChunkShiftSmall(n, k + 1);
    } else {
      assert topBit >= 0;
      assert topBit + 1 <= 6 * (k + 1);
      BitLengthBound(n, topBit + 1);
      Pow2Monotone(topBit + 1, 6 * (k + 1));
      ChunkShiftSmall(n, k + 1);
    }
  }

  /** The unmarked encoding: the continuation chunks, then the lowest. */
  lemma WriteVarintBePlain(n: nat)
    ensures WriteVarintBe(n, false) == BeChunks(n, Max(BeChunkCount(n), 0)) + [n % 64]
  {
    assert BeChunks(n, BeChunkCount(n)) == BeChunks(n, Max(BeChunkCount(n), 0));
  }

  /** The marked encoding is the unmarked one with 0x80 added to its first
      byte. */
  lemma WriteVarintBeMarked(n: nat, rest: seq<Byte>)
    ensures WriteVarintBe(n, false)[0] < 0x80
    ensures WriteVarintBe(n, true) + rest ==
              (WriteVarintBe(n, false) + rest)[0 := WriteVarintBe(n, false)[0] + 0x80]
  {
    var w := WriteVarintBe(n, false);
    assert WriteVarintBe(n, true) == w[0 := w[0] + 0x80];
    assert w[0 := w[0] + 0x80] + rest == (w + rest)[0 := w[0] + 0x80];
  }

  /** Reading the unmarked encoding from scratch gives the number back. */
  lemma ReadBePlain(n: nat, rest: seq<Byte>)
    ensures ReadBeFrom(WriteVarintBe(n, false) + rest, 0) == Some((n, rest))
  {
    var k := Max(BeChunkCount(n), 0);
    BeChunkCountFits(n);
    WriteVarintBePlain(n);
    ReadBeChunks(n, k, rest);
    assert ChunkShift(n, k + 1) * 64 == 0;
    assert WriteVarintBe(n, false) + rest == BeChunks(n, k) + [n % 64] + rest;
  }

  /** Round trip of the big-endian codec: `read_varint_be` over
      `write_varint_be(n, mark_first)` returns `n` and stops right after it,
      with or without the record mark. */
  lemma WriteVarintBeRoundTrip(n: nat, markFirst: bool, rest: seq<Byte>)
    ensures ReadVarintBe(WriteVarintBe(n, markFirst) + rest) == Some((n, rest))
  {
    ReadBePlain(n, rest);
    if markFirst {
      var plain := WriteVarintBe(n, false) + rest;
      WriteVarintBeMarked(n, rest);
      ReadBeIgnoresMark(plain, 0);
    }
  }

  /** Every proper prefix of an encoding ends inside it: reading runs out of
      input. */
  lemma {:induction false} ReadBeFromTruncated(s: seq<Byte>, value: nat)
    requires forall i :: 0 <= i < |s| ==> Continues(s[i])
    ensures ReadBeFrom(s, value) == None
    decreases |s|
  {
    if s != [] {
      ReadBeFromTruncated(s[1..], (value + s[0] % 64) * 64);
    }
  }

  lemma WriteVarintBeTruncated(n: int, markFirst: bool, k: nat)
    requires k < |WriteVarintBe(n, markFirst)|
    ensures ReadVarintBe(WriteVarintBe(n, markFirst)[..k]) == None
  {
    ReadBeFromTruncated(WriteVarintBe(n, markFirst)[..k], 0);
  }
}
