/**
 Where the bytes of the shared-memory ring of async-server/src/shmq.cpp live.
 The source keeps two cursors in 0..size inclusive; the proofs count bytes instead.
 Byte number `x` of the stream is stored at address `x % size`, and the cursor that
 stands for "x bytes so far" is 0 at the start and in 1..size ever after.
 */
module RingLayout {
  import opened Arith
  import opened ByteStrings

  /** `sizeof(struct shm_block_t)`; the payload field starts at byte 13 of it. */
  const HEADER: nat := 16
  const BUF_OFFSET: nat := 13

  function Addr(x: nat, size: nat): (a: nat)
    requires size > 0
    ensures a < size
  {
    x % size
  }

  function Cursor(x: nat, size: nat): (c: nat)
    requires size > 0
    ensures c <= size && (x > 0 ==> c > 0)
  {
    if x == 0 then 0 else Addr(x - 1, size) + 1
  }

  lemma AddrShift(x: nat, k: nat, size: nat)
    requires size > 0 && k <= size
    ensures Addr(x + k, size) == if Addr(x, size) + k < size then Addr(x, size) + k else Addr(x, size) + k - size
  {
    var q, a := x / size, x % size;
    assert x == q * size + a;
    if a + k < size {
      RemainderUnique(x + k, q, a + k, size);
    } else {
      assert (q + 1) * size == q * size + size;
      RemainderUnique(x + k, q + 1, a + k - size, size);
    }
  }

  /** Two bytes less than a lap apart never share an address. */
  lemma AddrInjective(x: nat, y: nat, size: nat)
    requires size > 0 && x < y < x + size
    ensures Addr(x, size) != Addr(y, size)
  {
    AddrShift(x, y - x, size);
  }

  /** The cursor is the address of the next byte, except that a full lap reads `size`, not 0. */
  lemma CursorAddr(x: nat, size: nat)
    requires size > 0
    ensures Cursor(x, size) == Addr(x, size) || (Cursor(x, size) == size && Addr(x, size) == 0)
  {
    if x > 0 {
      AddrShift(x - 1, 1, size);
    }
  }

  /** The source's distance between two cursors, `from` behind `to`. */
  function Distance(from: nat, to: nat, size: nat): int {
    if to >= from then to - from else size - from + to
  }

  lemma DistanceCounts(r: nat, w: nat, size: nat)
    requires size > 0 && r <= w < r + size
    ensures Distance(Cursor(r, size), Cursor(w, size), size) == w - r
  {
    if r > 0 {
      AddrShift(r - 1, w - r, size);
    } else if w > 0 {
      AddrShift(0, w - 1, size);
    }
  }

  // ---- one possibly wrapping memcpy of `n` bytes at cursor `pos` ----

  function CopyAddr(pos: nat, n: nat, size: nat, k: nat): int {
    if pos + n <= size || k < size - pos then pos + k else k - (size - pos)
  }

  function CopyEnd(pos: nat, n: nat, size: nat): int {
    if pos + n <= size then pos + n else n - (size - pos)
  }

  lemma CopyCounts(x: nat, n: nat, size: nat)
    requires size > 0 && n <= size
    ensures CopyEnd(Cursor(x, size), n, size) == Cursor(x + n, size)
    ensures forall k | 0 <= k < n :: CopyAddr(Cursor(x, size), n, size, k) == Addr(x + k, size)
  {
    CursorAddr(x, size);
    forall k | 0 <= k < n ensures CopyAddr(Cursor(x, size), n, size, k) == Addr(x + k, size) {
      AddrShift(x, k, size);
    }
    if n > 0 {
      AddrShift(x, n - 1, size);
    }
  }

  // ---- the ring's memory seen as a stretch of the stream ----

  /** Bytes `x` to `x + n` of the stream, as memory holds them. */
  function View(mem: seq<Byte>, x: nat, n: nat): (r: seq<Byte>)
    requires |mem| > 0
    ensures |r| == n
    ensures forall k | 0 <= k < n :: r[k] == mem[Addr(x + k, |mem|)]
  {
    seq(n, k requires 0 <= k < n => mem[Addr(x + k, |mem|)])
  }

  lemma ViewSplit(mem: seq<Byte>, x: nat, m: nat, n: nat)
    requires |mem| > 0
    ensures View(mem, x, m + n) == View(mem, x, m) + View(mem, x + m, n)
  {}

  /** Writing byte `y` leaves every stretch without it alone. */
  lemma ViewUpdate(mem: seq<Byte>, x: nat, n: nat, y: nat, b: Byte)
    requires |mem| > 0 && x + n <= y < x + |mem|
    ensures View(mem[Addr(y, |mem|) := b], x, n) == View(mem, x, n)
  {
    forall z | x <= z < x + n ensures Addr(z, |mem|) != Addr(y, |mem|) {
      AddrInjective(z, y, |mem|);
    }
  }

  // ---- block headers ----

  /** The little-endian `len` field of a header. */
  function LenField(header: seq<Byte>): nat
    requires |header| >= 12
  {
    var b0: int, b1: int, b2: int, b3: int := header[8], header[9], header[10], header[11];
    b0 + 0x100 * b1 + 0x1_0000 * b2 + 0x100_0000 * b3
  }

  /** A block as it lies in memory: a 16-byte header whose `len` field counts the payload behind it. */
  predicate IsBlock(b: seq<Byte>) {
    |b| >= HEADER && |b| == HEADER + LenField(b)
  }

  /** A header whose third word is the payload's length makes a block, whatever else it says. */
  lemma BlockWritten(head: seq<Byte>, tail: seq<Byte>, payload: seq<Byte>)
    requires |head| == 8 && |tail| == 4 && |payload| < 0x1_0000_0000
    ensures IsBlock(head + Word(|payload|) + tail + payload)
  {
    Digits256(|payload|);
    var b := head + Word(|payload|) + tail + payload;
    assert b[8..12] == Word(|payload|);
    assert b[8] == b[8..12][0] && b[9] == b[8..12][1] && b[10] == b[8..12][2] && b[11] == b[8..12][3];
  }

  /** What a block means: everything but the three padding bytes of its header. */
  function Meaning(b: seq<Byte>): (seq<Byte>, seq<Byte>) {
    if |b| < HEADER then (b, []) else (b[..BUF_OFFSET], b[HEADER..])
  }

  function Min(a: int, b: int): int { if a < b then a else b }

  /** The copy kept on the overflow list: its payload starts inside the header's padding. */
  function ListCopy(b: seq<Byte>): (r: seq<Byte>)
    requires IsBlock(b)
    ensures IsBlock(r) && |r| == |b| && Meaning(r) == Meaning(b)
  {
    var n := Min(HEADER - BUF_OFFSET, |b| - HEADER);
    var r := b[..BUF_OFFSET] + b[HEADER..HEADER + n] + b[BUF_OFFSET + n..];
    assert r[..BUF_OFFSET] == b[..BUF_OFFSET] && r[HEADER..] == b[HEADER..];
    r
  }
}
