/**
 The same ring as an object: `shmq_push`, `shmq_pull`, the purge loop and `recv_push` of
 async-server/src/shmq.cpp as methods that update the byte buffer, the cursors and the
 overflow list in place.  (`send_push` and `pruge_send` are the same code on the other queue.)
 */
module ShmQueues {
  import opened ByteStrings
  import opened RingLayout
  import opened RingProtocol

  /** One memcpy out of the ring, in one or two pieces. */
  function Fetch(mem: seq<Byte>, pos: nat, n: nat): seq<Byte>
    requires pos <= |mem| && n <= |mem|
  {
    if pos + n <= |mem| then mem[pos..pos + n] else mem[pos..] + mem[..n - (|mem| - pos)]
  }

  lemma FetchView(mem: seq<Byte>, x: nat, n: nat)
    requires |mem| > 0 && n <= |mem|
    ensures Fetch(mem, Cursor(x, |mem|), n) == View(mem, x, n)
  {
    CopyCounts(x, n, |mem|);
    var f := Fetch(mem, Cursor(x, |mem|), n);
    forall k | 0 <= k < n ensures f[k] == mem[Addr(x + k, |mem|)] {
      assert f[k] == mem[CopyAddr(Cursor(x, |mem|), n, |mem|, k)];
    }
  }

  /** One memcpy into the ring, in one or two pieces. */
  function Store(mem: seq<Byte>, pos: nat, data: seq<Byte>): (r: seq<Byte>)
    requires pos <= |mem| && |data| <= |mem|
    ensures |r| == |mem|
    ensures forall a | 0 <= a < |mem| ::
              r[a] == if Offset(a, pos, |mem|) < |data| then data[Offset(a, pos, |mem|)] else mem[a]
  {
    if pos + |data| <= |mem| then mem[..pos] + data + mem[pos + |data|..]
    else
      var n := |mem| - pos;
      data[n..] + mem[|data| - n..pos] + data[..n]
  }

  /** How far address `a` lies behind cursor `pos`, going round. */
  function Offset(a: nat, pos: nat, size: nat): nat
    requires a < size && pos <= size
  {
    if a >= pos then a - pos else a + (size - pos)
  }

  lemma OffsetAddr(a: nat, x: nat, size: nat)
    requires a < size
    ensures Addr(x + Offset(a, Cursor(x, size), size), size) == a
  {
    var k := Offset(a, Cursor(x, size), size);
    CopyCounts(x, size, size);
    CursorAddr(x, size);
    assert k < size && CopyAddr(Cursor(x, size), size, size, k) == a;
  }

  /** Storing at stream byte `x` extends any stretch that ends there, if it stays within one lap. */
  lemma StoreView(mem: seq<Byte>, y: nat, x: nat, data: seq<Byte>)
    requires |mem| > 0 && |data| <= |mem| && y <= x && x + |data| <= y + |mem|
    ensures View(Store(mem, Cursor(x, |mem|), data), y, x - y + |data|) == View(mem, y, x - y) + data
  {
    hide Addr, Cursor, Store, Offset;
    var size := |mem|;
    var mem' := Store(mem, Cursor(x, size), data);
    forall z: nat | y <= z < x + |data|
      ensures mem'[Addr(z, size)] == if z < x then mem[Addr(z, size)] else data[z - x]
    {
      var k := Offset(Addr(z, size), Cursor(x, size), size);
      OffsetAddr(Addr(z, size), x, size);
      OffsetBound(Addr(z, size), Cursor(x, size), size);
      if z < x + k {
        if k < |data| || z >= x {
          AddrInjective(z, x + k, size);
        }
      } else if z > x + k {
        AddrInjective(x + k, z, size);
      }
    }
  }

  lemma OffsetBound(a: nat, pos: nat, size: nat)
    requires a < size && pos <= size
    ensures Offset(a, pos, size) < size
  {}

  class ShmQueue {
    const size: nat
    const base: array<Byte>
    var w_pos: nat
    var r_pos: nat
    var pull_len: nat
    var push_list: seq<Block>
    ghost var published: seq<Block>    // every block ever written to the ring
    ghost var released: nat            // how many of them were pulled or dropped

    /** The ring part of the object, as a state of the protocol between two calls. */
    ghost function Snapshot(): State
      reads this, base
    {
      State(size, base[..], w_pos, r_pos, [], Idle, 0, Resting, [], published,
            seq(released, _ => Dropped))
    }

    ghost predicate Valid()
      reads this, base
    {
      && base.Length == size && released <= |published| && Cursors(Snapshot()) && Content(Snapshot())
      && forall i | 0 <= i < |push_list| :: IsBlock(push_list[i]) && PayloadLen(push_list[i]) < size
    }

    /** The blocks in the ring. */
    ghost function Ring(): seq<Block>
      reads this, base
      requires Valid()
    {
      published[released..]
    }

    /** The whole queue: ring contents, then overflow list. */
    ghost function Contents(): seq<(seq<Byte>, seq<Byte>)>
      reads this, base
      requires Valid()
    {
      Meanings(Ring()) + Meanings(push_list)
    }

    /** The bytes of all blocks in the ring and on the list. */
    ghost function Load(): nat
      reads this, base
      requires Valid()
    {
      Count(Ring()) + Count(push_list)
    }

    constructor (size: nat)
      requires 0 < size <= MAX_SIZE
      ensures Valid() && Contents() == [] && fresh(base) && this.size == size && Load() == 0
    {
      this.size := size;
      base := new Byte[size](_ => 0);
      w_pos, r_pos := 0, 0;
      pull_len := 8192;
      push_list := [];
      published, released := [], 0;
      new;
      assert published[..0] == [] && published[0..] == [];
      NoBytes();
      assert View(base[..], 0, 0) == [];
    }

    /** Copies `data` into the ring at cursor `pos`. */
    method CopyIn(pos: nat, data: seq<Byte>) returns (end: nat)
      requires base.Length == size && |data| <= size && pos <= size
      modifies base
      ensures base[..] == Store(old(base[..]), pos, data) && end == CopyEnd(pos, |data|, size)
    {
      if pos + |data| <= size {
        forall i | 0 <= i < |data| {
          base[pos + i] := data[i];
        }
        end := pos + |data|;
      } else {
        var n := size - pos;
        forall i | 0 <= i < n {
          base[pos + i] := data[i];
        }
        forall i | 0 <= i < |data| - n {
          base[i] := data[n + i];
        }
        end := |data| - n;
      }
    }

    /** Copies `n` bytes out of the ring at cursor `pos`. */
    method CopyOut(pos: nat, n: nat) returns (data: seq<Byte>, end: nat)
      requires base.Length == size && n <= size && pos <= size
      ensures data == Fetch(base[..], pos, n) && end == CopyEnd(pos, n, size)
    {
      if pos + n <= size {
        data := base[pos..pos + n];
        end := pos + n;
      } else {
        var k := size - pos;
        data := base[pos..] + base[..n - k];
        end := n - k;
      }
    }

    /** `shmq_push`: refuses a block unless it fits with a byte to spare. */
    method Push(b: Block) returns (ret: int)
      requires Valid() && IsBlock(b) && PayloadLen(b) < size
      modifies this`w_pos, this`published, base
      ensures Valid() && push_list == old(push_list)
      ensures ret == if old(Count(Ring())) + |b| < size then 0 else 1
      ensures Ring() == if ret == 0 then old(Ring()) + [b] else old(Ring())
    {
      hide Addr, Cursor, Store, Flatten, LenField, Meaning, Cursors, Content, CopyEnd;
      var total_len := |b|;
      var w := w_pos;
      var r := r_pos;
      var s := Free(w, r, size);
      ghost var before := Snapshot();
      RoomCounts(before, |b|);
      if s < total_len + 1 {
        return 1;
      }
      var pos := CopyIn(w, b[..HEADER]);
      pos := CopyIn(pos, b[HEADER..]);
      w_pos := pos;
      published := published + [b];
      StoredBlock(before, Snapshot(), b);
      assert published[released..] == old(published[released..]) + [b];
      return 0;
    }

    /** `pruge_recv`: moves the overflow list into the ring, front first, until a block does not fit. */
    method PurgeList() returns (ret: int, ghost n: nat)
      requires Valid()
      modifies this`w_pos, this`published, this`push_list, base
      ensures Valid() && Contents() == old(Contents())
      ensures n <= |old(push_list)| && push_list == old(push_list)[n..] && Ring() == old(Ring()) + old(push_list)[..n]
      ensures old(push_list) != [] && old(Ring()) == [] && |old(push_list)[0]| < size ==> n > 0
      ensures ret == if push_list == [] then 0 else -1
      ensures push_list != [] ==> Count(Ring()) + |push_list[0]| >= size
      ensures Load() == old(Load()) && (push_list == [] <==> old(Load()) < size)
    {
      hide Valid, Meaning, Meanings, Count, PayloadLen, IsBlock;
      ghost var ring, list := Ring(), push_list;
      NoBytes();
      n := 0;
      Prefix(ring, list, n);
      while push_list != []
        invariant Valid() && n <= |list| && push_list == list[n..] && Ring() == ring + list[..n] && Load() == old(Load())
        decreases |push_list|
      {
        var front := push_list[0];
        FrontFits();
        ret := Push(front);
        Prefix(ring, list, n);
        HeadMoves(ring + list[..n], list[n..]);
        if ret == 0 {
          MoveHead();
          n := n + 1;
        } else {
          MoveKeeps(ring, list, n);
          return -1, n;
        }
      }
      MoveKeeps(ring, list, n);
      RingFits();
      return 0, n;
    }

    /** Takes the first block, which is in the ring now, off the list. */
    method MoveHead()
      requires Valid() && push_list != []
      modifies this`push_list
      ensures Valid() && push_list == old(push_list)[1..] && Ring() == old(Ring())
    {
      hide Cursors, Content, LenField;
      push_list := push_list[1..];
    }

    lemma FrontFits()
      requires Valid() && push_list != []
      ensures IsBlock(push_list[0]) && PayloadLen(push_list[0]) < size
    {
    }

    lemma RingFits()
      requires Valid()
      ensures Count(Ring()) < size
    {
      RoomCounts(Snapshot(), 0);
    }

    /** `recv_push`; `oom` stands for a failing malloc of the list copy. */
    method RecvPush(b: Block, safe: bool, oom: bool) returns (ret: int, ghost queued: bool)
      requires Valid() && IsBlock(b)
      modifies this`w_pos, this`published, this`push_list, base
      ensures Valid() && Contents() == if queued then old(Contents()) + [Meaning(b)] else old(Contents())
      ensures safe && PayloadLen(b) < size && !oom ==> queued && ret == 0
      ensures PayloadLen(b) >= size ==> !queued && ret == -1
      ensures queued ==> ret == 0
      ensures !queued && ret == 0 ==> !safe && push_list == [] && Count(Ring()) + |b| >= size
      ensures queued <==> PayloadLen(b) < size && (old(Load()) + |b| < size || (safe && !oom))
      ensures !queued && ret == 0 <==> PayloadLen(b) < size && !safe && old(Load()) < size <= old(Load()) + |b|
      ensures Load() == old(Load()) + if queued then |b| else 0
      ensures queued ==> (push_list == [] <==> old(Load()) + |b| < size)
      ensures ret in {0, -1}
    {
      hide Cursors, Content, Meaning, Meanings, LenField, ListCopy, Flatten;
      NoBytes();
      ghost var moved;
      ret, moved := PurgeList();
      queued := false;
      if PayloadLen(b) >= size {
        return -1, false;
      }
      if ret == 0 {
        ghost var ring := Ring();
        CountSnoc(ring, b);
        var pushed := Push(b);
        if pushed == 0 {
          MeaningsSnoc(ring, b);
          NoMeanings();
          return 0, true;
        }
      }
      if !safe {
        return ret, false;
      }
      if oom {
        return -1, false;
      }
      MeaningsSnoc(push_list, ListCopy(b));
      CountSnoc(push_list, ListCopy(b));
      assert Meanings(Ring()) + (Meanings(push_list) + [Meaning(b)]) == Contents() + [Meaning(b)];
      push_list := push_list + [ListCopy(b)];
      return 0, true;
    }

    /** `shmq_pull`; `oom` stands for a failing realloc of the pull buffer. */
    method Pull(oom: bool) returns (ret: int, header: seq<Byte>, buf: seq<Byte>)
      requires Valid()
      modifies this`r_pos, this`pull_len, this`released
      ensures Valid() && push_list == old(push_list)
      ensures ret == 1 <==> old(Ring()) == []
      ensures ret == 1 ==> Ring() == []
      ensures ret != 1 ==>
                && Ring() == old(Ring())[1..]
                && header + (if ret == 0 then buf else old(Ring())[0][HEADER..]) == old(Ring())[0]
      ensures ret == -1 <==> old(Ring()) != [] && oom && |old(Ring())[0]| - HEADER > old(pull_len)
      ensures pull_len == if ret == 0 && |buf| > old(pull_len) then |buf| else old(pull_len)
      ensures ret in {1, 0, -1}
    {
      hide Cursors, Content, Fetch, Flatten, LenField, Meaning, Distance;
      header, buf := [], [];
      var w := w_pos;
      var r := r_pos;
      var s := Distance(r, w, size);
      ghost var before := Snapshot();
      PullCounts(before);
      if s == 0 {
        return 1, [], [];
      }
      var pos;
      header, pos := CopyOut(r, HEADER);
      var len := LenField(header);
      if len > 0 {
        if len > pull_len {
          if oom {
            pos := CopyEnd(pos, len, size);
            r_pos := pos;
            released := released + 1;
            PulledBlock(before, Snapshot());
            return -1, header, [];
          }
          pull_len := len;
        }
        buf, pos := CopyOut(pos, len);
      }
      r_pos := pos;
      released := released + 1;
      PulledBlock(before, Snapshot());
      return 0, header, buf;
    }
  }

  lemma NoBytes()
    ensures Count([]) == 0
  {
  }

  lemma HeadBytes(list: seq<Block>)
    ensures list != [] ==> Count(list) == |list[0]| + Count(list[1..]) && Count(list) >= |list[0]|
  {
  }

  /** The list's front joins the ring. */
  lemma HeadMoves(ring: seq<Block>, list: seq<Block>)
    ensures list != [] ==>
              && Count(ring + [list[0]]) + Count(list[1..]) == Count(ring) + Count(list)
              && Count(ring) + Count(list) >= Count(ring) + |list[0]|
  {
    HeadBytes(list);
    if list != [] {
      CountSnoc(ring, list[0]);
    }
  }

  lemma Prefix(ring: seq<Block>, list: seq<Block>, n: nat)
    requires n <= |list|
    ensures list[0..] == list && ring + list[..0] == ring
    ensures n < |list| ==>
              && list[n..][1..] == list[n + 1..] && list[n..][0] == list[n]
              && ring + list[..n + 1] == ring + list[..n] + [list[n]]
  {
  }

  lemma MoveKeeps(ring: seq<Block>, list: seq<Block>, n: nat)
    requires n <= |list|
    ensures Meanings(ring + list[..n]) + Meanings(list[n..]) == Meanings(ring) + Meanings(list)
  {}

  /** What the consumer's loads and copies deliver. */
  lemma PullCounts(s: State)
    requires Cursors(s) && Content(s)
    ensures Distance(s.r, s.w, s.size) == 0 <==> s.published[|s.pulled|..] == []
    ensures s.r <= s.size
    ensures s.published[|s.pulled|..] != [] ==>
              var b := s.published[|s.pulled|];
              && HEADER <= s.size && 0 <= CopyEnd(s.r, HEADER, s.size) <= s.size && IsBlock(b) && |b| < s.size
              && Fetch(s.mem, s.r, HEADER) == b[..HEADER]
              && Fetch(s.mem, CopyEnd(s.r, HEADER, s.size), |b| - HEADER) == b[HEADER..]
              && LenField(b[..HEADER]) == |b| - HEADER
  {
    hide Addr, Cursor, CopyEnd, Fetch, View, LenField;
    DistanceCounts(R(s), W(s), s.size);
    Split(s);
    if s.published[|s.pulled|..] != [] {
      var b := s.published[|s.pulled|];
      HeaderLength(b);
      CopyCounts(R(s), HEADER, s.size);
      FetchView(s.mem, R(s), HEADER);
      FetchView(s.mem, R(s) + HEADER, |b| - HEADER);
      ViewSplit(s.mem, R(s), |b|, W(s) - R(s) - |b|);
      ViewSplit(s.mem, R(s), HEADER, |b| - HEADER);
      var all := Flatten(s.published[|s.pulled|..]);
      assert all[..|b|] == b;
      assert View(s.mem, R(s), |b|) == b;
    }
  }

  /** The read cursor moves over exactly one block. */
  lemma PulledBlock(s: State, t: State)
    requires Cursors(s) && Content(s) && |s.pulled| < |s.published|
    requires 0 <= CopyEnd(s.r, HEADER, s.size)
    requires t.mem == s.mem && t.w == s.w && t.size == s.size && t.published == s.published
    requires |t.pulled| == |s.pulled| + 1
    requires t.r == CopyEnd(CopyEnd(s.r, HEADER, s.size), |s.published[|s.pulled|]| - HEADER, s.size)
    ensures Cursors(t) && Content(t)
  {
    hide Addr, Cursor, CopyEnd, View, LenField;
    var b := s.published[|s.pulled|];
    CopyCounts(R(s), HEADER, s.size);
    CopyCounts(R(s) + HEADER, |b| - HEADER, s.size);
    Split(s);
    ViewSplit(s.mem, R(s), |b|, W(s) - R(s) - |b|);
    var all := Flatten(s.published[|s.pulled|..]);
    assert all[|b|..] == Flatten(s.published[|s.pulled| + 1..]);
    assert |all| >= |b|;
  }

  lemma NoMeanings()
    ensures Meanings([]) == []
  {}

  lemma RoomCounts(s: State, n: nat)
    requires Cursors(s)
    ensures Free(s.w, s.r, s.size) == s.size - Count(s.published[|s.pulled|..])
    ensures W(s) - R(s) == Count(s.published[|s.pulled|..])
    ensures s.w <= s.size && (HEADER <= s.size ==> 0 <= CopyEnd(s.w, HEADER, s.size) <= s.size)
  {
    FreeCounts(s);
    Split(s);
  }

  /** Both copies of a push, seen from the protocol. */
  lemma StoredBlock(s: State, t: State, b: Block)
    requires Cursors(s) && Content(s) && Fits(b, s.size) && W(s) - R(s) + |b| < s.size
    requires 0 <= CopyEnd(s.w, HEADER, s.size) <= s.size
    requires t.mem == Store(Store(s.mem, s.w, b[..HEADER]), CopyEnd(s.w, HEADER, s.size), b[HEADER..])
    requires t.w == CopyEnd(CopyEnd(s.w, HEADER, s.size), |b| - HEADER, s.size)
    requires t.r == s.r && t.size == s.size && t.pulled == s.pulled && t.published == s.published + [b]
    ensures Cursors(t) && Content(t)
  {
    hide Addr, Cursor, CopyEnd, Store, View, LenField, Flatten, Count;
    CopyCounts(W(s), HEADER, s.size);
    CopyCounts(W(s) + HEADER, |b| - HEADER, s.size);
    StoredView(s.mem, R(s), W(s), b);
    PublishedMore(s, t, b);
  }

  lemma PublishedMore(s: State, t: State, b: Block)
    requires |s.pulled| <= |s.published| && Fits(b, s.size)
    requires forall i | 0 <= i < |s.published| :: Fits(s.published[i], s.size)
    requires t.pulled == s.pulled && t.published == s.published + [b]
    ensures R(t) == R(s) && W(t) == W(s) + |b|
    ensures forall i | 0 <= i < |t.published| :: Fits(t.published[i], s.size)
    ensures Flatten(t.published[|t.pulled|..]) == Flatten(s.published[|s.pulled|..]) + b
  {
    hide Flatten, Fits;
    CountSnoc(s.published, b);
    FlattenSnoc(s.published[|s.pulled|..], b);
    assert t.published[|s.pulled|..] == s.published[|s.pulled|..] + [b];
    assert t.published[..|s.pulled|] == s.published[..|s.pulled|];
  }

  /** Both copies of a push, seen from the memory. */
  lemma StoredView(mem: seq<Byte>, y: nat, x: nat, b: Block)
    requires 0 < |mem| && HEADER <= |b| <= |mem| && y <= x && x + |b| <= y + |mem|
    ensures var mid := Store(mem, Cursor(x, |mem|), b[..HEADER]);
            var end := Store(mid, Cursor(x + HEADER, |mem|), b[HEADER..]);
            View(end, y, x - y + |b|) == View(mem, y, x - y) + b
  {
    hide *;
    var mid := Store(mem, Cursor(x, |mem|), b[..HEADER]);
    StoreView(mem, y, x, b[..HEADER]);
    StoreView(mid, y, x + HEADER, b[HEADER..]);
    Joined(View(mem, y, x - y), b, HEADER);
  }

  lemma Joined(view: seq<Byte>, b: Block, n: nat)
    requires n <= |b|
    ensures view + b[..n] + b[n..] == view + b
  {
  }

  /** Two pushes of an empty payload into a ring of 30 bytes: both return 0, and only the first one is queued. */
  method UnqueuedZero() returns (q: ShmQueue, b: Block, first: int, second: int)
    ensures IsBlock(b) && PayloadLen(b) < q.size && first == 0 && second == 0
    ensures fresh(q) && q.Valid() && q.Contents() == [Meaning(b)]
  {
    hide Cursors, Content, Addr, Cursor, View, Flatten, Count, LenField, Meaning, EmptyBlock;
    b := EmptyBlock();
    NoMeanings();
    q := new ShmQueue(30);
    ghost var queued;
    first, queued := q.RecvPush(b, false, false);
    assert queued;
    second, queued := q.RecvPush(b, false, false);
    assert !queued;
  }

  /** A header of zeros, and no payload. */
  function EmptyBlock(): (b: Block)
    ensures IsBlock(b) && |b| == 16 && PayloadLen(b) == 0
  {
    seq(HEADER, _ => 0)
  }
}
