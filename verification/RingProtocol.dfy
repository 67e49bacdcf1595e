/**
 The ring of async-server/src/shmq.cpp as two processes that interleave freely.
 One step loads a cursor, copies a single byte, or publishes a cursor; the bytes of a
 copy may move in any order.  The producer runs `recv_push` (or `send_push`) with its
 purge loop and overflow list, the consumer runs `shmq_pull`.  Memory is sequentially
 consistent.
 */
module RingProtocol {
  import opened ByteStrings
  import opened RingLayout

  type Block = seq<Byte>

  /** What the producer process is asked to do: `recv_push`, or `pruge_recv` from the main loop. */
  datatype Job = Purge | Push(block: Block, safe: bool)

  datatype Producer =
    | Idle
    | AtPurge(job: Job)                                              // top of the purge loop
    | Try(job: Job, fromList: bool, block: Block)                    // about to call shmq_push
    | HasW(job: Job, fromList: bool, block: Block, w: nat)           // read w_pos
    | Copying(job: Job, fromList: bool, block: Block, w: nat, done: set<nat>)

  datatype Consumer =
    | Resting
    | Loaded(w: nat, seen: nat)    // read w_pos; `seen` blocks were published then
    | ReadingHeader(got: map<nat, Byte>)
    | ReadingPayload(header: seq<Byte>, got: map<nat, Byte>)

  /** What a push came to. */
  datatype Outcome = Enqueued | TooLong | Full | NoMemory

  datatype Entry = Entry(block: Block, safe: bool, outcome: Outcome)

  /** What a pull that consumed a block handed out. */
  datatype Pulled = Got(block: Block) | Dropped

  datatype State = State(
    size: nat, mem: seq<Byte>, w: nat, r: nat,   // shared memory
    list: seq<Block>, prod: Producer,            // producer process
    pullLen: nat, cons: Consumer,                // consumer process
    log: seq<Entry>,                             // history: finished pushes
    published: seq<Block>,                       // history: blocks whose w_pos was published
    pulled: seq<Pulled>)                         // history: blocks consumed

  datatype Step =
    | Begin(job: Job)
    | PurgeNext
    | PurgeDone
    | LoadW
    | LoadR(oom: bool)
    | CopyByte(k: nat)
    | Publish
    | PullLoad
    | PullStart
    | ReadHeaderByte(k: nat)
    | HeaderDone
    | DropBlock
    | ReadPayloadByte(k: nat)
    | Release

  // ---- the producer ----

  function PayloadLen(b: Block): int { |b| - HEADER }

  /** Where byte `k` of a block goes when `shmq_push` starts at cursor `w`. */
  function Target(w: nat, size: nat, b: Block, k: nat): int
    requires |b| >= HEADER
  {
    if k < HEADER then CopyAddr(w, HEADER, size, k)
    else CopyAddr(Max0(CopyEnd(w, HEADER, size)), |b| - HEADER, size, k - HEADER)
  }

  function Max0(x: int): nat { if x < 0 then 0 else x }

  function TargetEnd(w: nat, size: nat, b: Block): int
    requires |b| >= HEADER
  {
    CopyEnd(Max0(CopyEnd(w, HEADER, size)), |b| - HEADER, size)
  }

  /** The free space `shmq_push` computes. */
  function Free(w: nat, r: nat, size: nat): int {
    if w >= r then size - w + r else r - w
  }

  function Finish(s: State, job: Job, outcome: Outcome): State {
    s.(prod := Idle, log := s.log + if job.Push? then [Entry(job.block, job.safe, outcome)] else [])
  }

  /** The tail of `recv_push` after a purge or a push that did not enqueue the block. */
  function GiveUp(s: State, job: Job, oom: bool): State {
    match job
    case Purge => s.(prod := Idle)
    case Push(b, safe) =>
      if PayloadLen(b) >= s.size then Finish(s, job, TooLong)
      else if !safe then Finish(s, job, Full)
      else if oom || !IsBlock(b) then Finish(s, job, NoMemory)
      else Finish(s.(list := s.list + [ListCopy(b)]), job, Enqueued)
  }

  ghost predicate ProducerStep(s: State, t: State, step: Step) {
    match step
    case Begin(job) =>
      && s.prod.Idle? && (job.Push? ==> IsBlock(job.block))
      && t == s.(prod := AtPurge(job))
    case PurgeNext =>
      && s.prod.AtPurge? && s.list != []
      && t == s.(prod := Try(s.prod.job, true, s.list[0]))
    case PurgeDone =>
      && s.prod.AtPurge? && s.list == []
      && var job := s.prod.job;
         t == if job.Purge? then s.(prod := Idle)
              else if PayloadLen(job.block) >= s.size then Finish(s, job, TooLong)
              else s.(prod := Try(job, false, job.block))
    case LoadW =>
      && s.prod.Try?
      && t == s.(prod := HasW(s.prod.job, s.prod.fromList, s.prod.block, s.w))
    case LoadR(oom) =>
      && s.prod.HasW?
      && var p := s.prod;
         t == if Free(p.w, s.r, s.size) < |p.block| + 1 then GiveUp(s, p.job, oom)
              else s.(prod := Copying(p.job, p.fromList, p.block, p.w, {}))
    case CopyByte(k) =>
      && s.prod.Copying? && k < |s.prod.block| && k !in s.prod.done && |s.prod.block| >= HEADER
      && var a := Target(s.prod.w, s.size, s.prod.block, k);
         && 0 <= a < |s.mem|
         && t == s.(mem := s.mem[a := s.prod.block[k]], prod := s.prod.(done := s.prod.done + {k}))
    case Publish =>
      && s.prod.Copying? && (forall k | 0 <= k < |s.prod.block| :: k in s.prod.done) && |s.prod.block| >= HEADER
      && var p := s.prod;
         var s' := s.(w := Max0(TargetEnd(p.w, s.size, p.block)), published := s.published + [p.block]);
         t == if p.fromList then s'.(list := Tail(s.list), prod := AtPurge(p.job)) else Finish(s', p.job, Enqueued)
    case _ => false
  }

  function Tail(list: seq<Block>): seq<Block> { if list == [] then [] else list[1..] }

  // ---- the consumer ----

  function ReadBack(got: map<nat, Byte>, n: nat): seq<Byte>
    requires forall k: nat | k < n :: k in got
  {
    seq(n, k requires 0 <= k < n => got[k])
  }

  ghost predicate ConsumerStep(s: State, t: State, step: Step) {
    match step
    case PullLoad =>
      && s.cons.Resting?
      && t == s.(cons := Loaded(s.w, |s.published|))
    case PullStart =>
      && s.cons.Loaded?
      && t == s.(cons := if Distance(s.r, s.cons.w, s.size) == 0 then Resting else ReadingHeader(map[]))
    case ReadHeaderByte(k) =>
      && s.cons.ReadingHeader? && k < HEADER
      && var a := CopyAddr(s.r, HEADER, s.size, k);
         && 0 <= a < |s.mem|
         && t == s.(cons := ReadingHeader(s.cons.got[k := s.mem[a]]))
    case HeaderDone =>
      && s.cons.ReadingHeader? && (forall k: nat | k < HEADER :: k in s.cons.got)
      && t == s.(cons := ReadingPayload(ReadBack(s.cons.got, HEADER), map[]))
    case DropBlock =>
      && s.cons.ReadingPayload? && |s.cons.header| == HEADER && LenField(s.cons.header) > s.pullLen
      && t == s.(r := Max0(ReleaseTo(s)), cons := Resting, pulled := s.pulled + [Dropped])
    case ReadPayloadByte(k) =>
      && s.cons.ReadingPayload? && |s.cons.header| == HEADER && k < LenField(s.cons.header)
      && var n := LenField(s.cons.header);
         var a := CopyAddr(Max0(CopyEnd(s.r, HEADER, s.size)), n, s.size, k);
         && 0 <= a < |s.mem|
         && t == s.(pullLen := if n > s.pullLen then n else s.pullLen,
                    cons := s.cons.(got := s.cons.got[k := s.mem[a]]))
    case Release =>
      && s.cons.ReadingPayload? && |s.cons.header| == HEADER
      && (forall k: nat | k < LenField(s.cons.header) :: k in s.cons.got)
      && t == s.(r := Max0(ReleaseTo(s)), cons := Resting,
                 pulled := s.pulled + [Got(s.cons.header + ReadBack(s.cons.got, LenField(s.cons.header)))])
    case _ => false
  }

  /** The read cursor behind the block whose header was read. */
  function ReleaseTo(s: State): int
    requires s.cons.ReadingPayload? && |s.cons.header| == HEADER
  {
    CopyEnd(Max0(CopyEnd(s.r, HEADER, s.size)), LenField(s.cons.header), s.size)
  }

  /** The largest ring: `shmq_size` is an `int`, and the mapping starts with a head of 16 bytes. */
  const MAX_SIZE: nat := 0x7FFF_FFFF - 16

  ghost predicate Init(s: State) {
    && 0 < s.size == |s.mem| && s.size <= MAX_SIZE
    && s.w == 0 && s.r == 0 && s.list == [] && s.prod == Idle && s.cons == Resting
    && s.log == [] && s.published == [] && s.pulled == []
  }

  ghost predicate Next(s: State, t: State) {
    exists step :: ProducerStep(s, t, step) || ConsumerStep(s, t, step)
  }

  // ---- the invariant ----

  function Count(blocks: seq<Block>): nat { |Flatten(blocks)| }

  /** Bytes ever published, and bytes ever released. */
  function W(s: State): nat { Count(s.published) }

  function R(s: State): nat
    requires |s.pulled| <= |s.published|
  {
    Count(s.published[..|s.pulled|])
  }

  predicate Fits(b: Block, size: nat) { IsBlock(b) && |b| < size }

  ghost predicate Cursors(s: State) {
    && 0 < s.size == |s.mem| && s.size <= MAX_SIZE
    && |s.pulled| <= |s.published|
    && (forall i | 0 <= i < |s.published| :: Fits(s.published[i], s.size))
    && R(s) <= W(s) < R(s) + s.size
    && s.w == Cursor(W(s), s.size) && s.r == Cursor(R(s), s.size)
  }

  /** Memory between the cursors holds exactly the published bytes that are not yet released. */
  ghost predicate Content(s: State)
    requires Cursors(s)
  {
    View(s.mem, R(s), W(s) - R(s)) == Flatten(s.published[|s.pulled|..])
  }

  /** Every block consumed is the next one published, or was dropped for want of memory. */
  ghost predicate InOrder(s: State) {
    && |s.pulled| <= |s.published|
    && forall i | 0 <= i < |s.pulled| :: s.pulled[i] == Got(s.published[i]) || s.pulled[i] == Dropped
  }

  function Meanings(blocks: seq<Block>): seq<(seq<Byte>, seq<Byte>)>
  {
    seq(|blocks|, i requires 0 <= i < |blocks| => Meaning(blocks[i]))
  }

  /** The meanings of the pushes that were accepted, in the order they finished. */
  function AcceptedOf(log: seq<Entry>): seq<(seq<Byte>, seq<Byte>)>
  {
    if log == [] then []
    else
      var e := log[|log| - 1];
      AcceptedOf(log[..|log| - 1]) + if e.outcome.Enqueued? then [Meaning(e.block)] else []
  }

  /** Only `safe=false` pushes are refused for lack of room, and only over-long blocks for their length. */
  predicate Fair(e: Entry, size: nat) {
    && IsBlock(e.block)
    && (e.outcome.TooLong? <==> PayloadLen(e.block) >= size)
    && (e.outcome.Full? ==> !e.safe)
    && (e.outcome.NoMemory? ==> e.safe)
  }

  /** Ring contents followed by the overflow list are one queue: everything accepted, in order. */
  ghost predicate OneQueue(s: State) {
    && (forall i | 0 <= i < |s.published| :: IsBlock(s.published[i]))
    && (forall i | 0 <= i < |s.list| :: IsBlock(s.list[i]) && PayloadLen(s.list[i]) < s.size)
    && (forall i | 0 <= i < |s.log| :: Fair(s.log[i], s.size))
    && Meanings(s.published) + Meanings(s.list) == AcceptedOf(s.log)
  }

  ghost predicate ProducerOk(s: State)
    requires Cursors(s)
  {
    match s.prod
    case Idle => true
    case AtPurge(job) => JobOk(job)
    case Try(job, fromList, b) => TryOk(s, job, fromList, b)
    case HasW(job, fromList, b, w) => TryOk(s, job, fromList, b) && w == s.w
    case Copying(job, fromList, b, w, done) =>
      && TryOk(s, job, fromList, b) && w == s.w
      && W(s) - R(s) + |b| + 1 <= s.size
      && (forall k | k in done :: k < |b|)
      && (forall k: nat | k in done && k < |b| :: s.mem[Addr(W(s) + k, s.size)] == b[k])
  }

  predicate JobOk(job: Job) { job.Push? ==> IsBlock(job.block) }

  predicate TryOk(s: State, job: Job, fromList: bool, b: Block) {
    && JobOk(job) && IsBlock(b) && PayloadLen(b) < s.size
    && (if fromList then s.list != [] && b == s.list[0]
        else s.list == [] && job.Push? && b == job.block)
  }

  ghost predicate ConsumerOk(s: State)
    requires Cursors(s)
  {
    match s.cons
    case Resting => true
    case Loaded(w, seen) =>
      && |s.pulled| <= seen <= |s.published|
      && w == Cursor(Count(s.published[..seen]), s.size)
    case ReadingHeader(got) =>
      && |s.pulled| < |s.published|
      && (forall k: nat | k in got && k < HEADER :: got[k] == s.published[|s.pulled|][k])
    case ReadingPayload(header, got) =>
      && |s.pulled| < |s.published|
      && var b := s.published[|s.pulled|];
         && header == b[..HEADER]
         && (forall k: nat | k in got && k < |b| - HEADER :: got[k] == b[HEADER + k])
  }

  ghost predicate Inv(s: State) {
    && Cursors(s)
    && Content(s)
    && InOrder(s)
    && OneQueue(s)
    && ProducerOk(s)
    && ConsumerOk(s)
  }

  lemma InitInv(s: State)
    requires Init(s)
    ensures Inv(s)
  {
    assert View(s.mem, 0, 0) == [];
    assert Meanings([]) + Meanings([]) == [];
  }

  // ---- preservation ----

  lemma CountSnoc(blocks: seq<Block>, b: Block)
    ensures Count(blocks + [b]) == Count(blocks) + |b|
  {
    FlattenSnoc(blocks, b);
  }

  lemma {:induction false} CountMonotone(blocks: seq<Block>, i: nat, j: nat)
    requires i <= j <= |blocks|
    ensures Count(blocks[..i]) <= Count(blocks[..j])
    ensures (forall k | 0 <= k < |blocks| :: IsBlock(blocks[k])) && i < j ==>
              Count(blocks[..i]) + HEADER <= Count(blocks[..j])
    decreases j - i
  {
    if i < j {
      CountMonotone(blocks, i, j - 1);
      assert blocks[..j] == blocks[..j - 1] + [blocks[j - 1]];
      CountSnoc(blocks[..j - 1], blocks[j - 1]);
    }
  }

  /** Splitting the published blocks at the release point. */
  lemma Split(s: State)
    requires Cursors(s)
    ensures W(s) == R(s) + Count(s.published[|s.pulled|..])
    ensures |s.pulled| < |s.published| ==>
              && Flatten(s.published[|s.pulled|..])
                 == s.published[|s.pulled|] + Flatten(s.published[|s.pulled| + 1..])
              && Count(s.published[..|s.pulled| + 1]) == R(s) + |s.published[|s.pulled|]|
  {
    var k := |s.pulled|;
    assert s.published == s.published[..k] + s.published[k..];
    FlattenAppend(s.published[..k], s.published[k..]);
    if k < |s.published| {
      assert s.published[k..][1..] == s.published[k + 1..];
      assert s.published[..k + 1] == s.published[..k] + [s.published[k]];
      CountSnoc(s.published[..k], s.published[k]);
    }
  }

  /** The computed targets are the addresses of the next bytes of the stream. */
  lemma TargetsCount(x: nat, size: nat, b: Block)
    requires size > 0 && HEADER <= |b| < size
    ensures forall k: nat | k < |b| :: Target(Cursor(x, size), size, b, k) == Addr(x + k, size)
    ensures TargetEnd(Cursor(x, size), size, b) == Cursor(x + |b|, size)
    ensures CopyEnd(Cursor(x, size), HEADER, size) == Cursor(x + HEADER, size)
  {
    CopyCounts(x, HEADER, size);
    CopyCounts(x + HEADER, |b| - HEADER, size);
    forall k: nat | k < |b| ensures Target(Cursor(x, size), size, b, k) == Addr(x + k, size) {
      if k >= HEADER {
        assert x + HEADER + (k - HEADER) == x + k;
      }
    }
  }

  /** The consumer reads the stream at the release point. */
  lemma ReadsStream(s: State, k: nat)
    requires Cursors(s) && Content(s) && |s.pulled| < |s.published| && k < |s.published[|s.pulled|]|
    ensures s.mem[Addr(R(s) + k, s.size)] == s.published[|s.pulled|][k]
    ensures R(s) + k < W(s)
  {
    Split(s);
    assert View(s.mem, R(s), W(s) - R(s))[k] == s.mem[Addr(R(s) + k, s.size)];
  }

  lemma FreeCounts(s: State)
    requires Cursors(s)
    ensures Free(s.w, s.r, s.size) == s.size - (W(s) - R(s))
  {
    DistanceCounts(R(s), W(s), s.size);
  }

  // The producer's copying touches neither cursor nor published bytes.
  lemma CopyByteMemory(s: State, t: State, k: nat)
    requires Inv(s) && ProducerStep(s, t, CopyByte(k))
    ensures Target(s.prod.w, s.size, s.prod.block, k) == Addr(W(s) + k, s.size)
    ensures t.mem == s.mem[Addr(W(s) + k, s.size) := s.prod.block[k]]
    ensures View(t.mem, R(s), W(s) - R(s)) == View(s.mem, R(s), W(s) - R(s))
  {
    hide Cursor, Count, View, Addr, OneQueue, InOrder, ConsumerOk, Target, TargetEnd, Flatten;
    var b := s.prod.block;
    BlockFits(s);
    TargetsCount(W(s), s.size, b);
    ViewUpdate(s.mem, R(s), W(s) - R(s), W(s) + k, b[k]);
  }

  lemma BlockFits(s: State)
    requires Inv(s) && s.prod.Copying?
    ensures HEADER <= |s.prod.block| < s.size && W(s) - R(s) + |s.prod.block| + 1 <= s.size && R(s) <= W(s)
    ensures s.w == Cursor(W(s), s.size) == s.prod.w && |s.mem| == s.size > 0
  {
    hide Content, OneQueue, InOrder, ConsumerOk, Cursor, Count, LenField;
  }

  lemma CopyByteInv(s: State, t: State, k: nat)
    requires Inv(s) && ProducerStep(s, t, CopyByte(k))
    ensures Inv(t)
    ensures Target(s.prod.w, s.size, s.prod.block, k) == Addr(W(s) + k, s.size)
  {
    hide Cursor, Count, View, Addr, LenField, Meaning, IsBlock, Meanings, AcceptedOf, Flatten, Target, OneQueue;
    var b := s.prod.block;
    CopyByteMemory(s, t, k);
    var y := W(s) + k;
    forall j: nat | j in t.prod.done && j < |b| ensures t.mem[Addr(W(t) + j, t.size)] == b[j] {
      if j < k {
        AddrInjective(W(s) + j, y, s.size);
      } else if j > k {
        AddrInjective(y, W(s) + j, s.size);
      }
    }
    QueueUntouched(s, t);
  }

  lemma LoadRInv(s: State, t: State, oom: bool)
    requires Inv(s) && ProducerStep(s, t, LoadR(oom))
    ensures Inv(t)
  {
    hide Count, View, Addr, Cursor, LenField, Meaning, Meanings, AcceptedOf, GiveUp, Flatten, IsBlock;
    FreeCounts(s);
    var p := s.prod;
    if Free(p.w, s.r, s.size) < |p.block| + 1 {
      GiveUpInv(s, p.job, oom);
    }
  }

  lemma LogSnoc(log: seq<Entry>, e: Entry)
    ensures AcceptedOf(log + [e]) == AcceptedOf(log) + if e.outcome.Enqueued? then [Meaning(e.block)] else []
  {
    assert (log + [e])[..|log|] == log;
  }

  lemma MeaningsSnoc(blocks: seq<Block>, b: Block)
    ensures Meanings(blocks + [b]) == Meanings(blocks) + [Meaning(b)]
  {}

  lemma MeaningsHead(blocks: seq<Block>)
    requires blocks != []
    ensures Meanings(blocks) == [Meaning(blocks[0])] + Meanings(blocks[1..])
  {}

  lemma NoneMeant()
    ensures Meanings([]) == []
  {}

  lemma RefuseInv(s: State, job: Job, outcome: Outcome)
    requires Inv(s) && job.Push? && Fair(Entry(job.block, job.safe, outcome), s.size) && !outcome.Enqueued?
    ensures Inv(Finish(s, job, outcome))
  {
    hide Count, View, Addr, Cursor, IsBlock, Meaning, AcceptedOf, Meanings, Flatten;
    LogSnoc(s.log, Entry(job.block, job.safe, outcome));
  }

  lemma AppendInv(s: State, job: Job)
    requires Inv(s) && job.Push? && IsBlock(job.block) && PayloadLen(job.block) < s.size
    ensures Inv(Finish(s.(list := s.list + [ListCopy(job.block)]), job, Enqueued))
  {
    hide Count, View, Addr, Cursor, LenField, Meaning, ListCopy, IsBlock, AcceptedOf;
    var e := Entry(job.block, job.safe, Enqueued);
    LogSnoc(s.log, e);
    MeaningsSnoc(s.list, ListCopy(job.block));
    assert Meanings(s.published) + (Meanings(s.list) + [Meaning(job.block)]) == AcceptedOf(s.log + [e]);
  }

  lemma GiveUpInv(s: State, job: Job, oom: bool)
    requires Inv(s) && JobOk(job)
    ensures Inv(GiveUp(s, job, oom))
  {
    hide Cursors, Content, OneQueue, InOrder;
    match job
    case Purge =>
      IdleInv(s);
    case Push(b, safe) =>
      if PayloadLen(b) >= s.size {
        RefuseInv(s, job, TooLong);
      } else if !safe {
        RefuseInv(s, job, Full);
      } else if oom {
        RefuseInv(s, job, NoMemory);
      } else {
        AppendInv(s, job);
      }
  }

  lemma IdleInv(s: State)
    requires Inv(s)
    ensures Inv(s.(prod := Idle))
  {}

  /** Publishing a completely copied block extends the readable stretch by exactly that block. */
  lemma PublishMemory(s: State, t: State)
    requires Inv(s) && ProducerStep(s, t, Publish)
    ensures Cursors(t) && Content(t)
    ensures R(t) == R(s) && W(t) == W(s) + |s.prod.block|
  {
    hide OneQueue, InOrder, ConsumerOk, Addr, Cursor, CopyEnd, View, Flatten, Meaning, LenField;
    var b := s.prod.block;
    TargetsCount(W(s), s.size, b);
    CountSnoc(s.published, b);
    FlattenSnoc(s.published[|s.pulled|..], b);
    assert t.published[|s.pulled|..] == s.published[|s.pulled|..] + [b];
    assert t.published[..|s.pulled|] == s.published[..|s.pulled|];
    ViewSplit(s.mem, R(s), W(s) - R(s), |b|);
    Copied(s);
  }

  lemma Copied(s: State)
    requires Inv(s) && s.prod.Copying? && forall k | 0 <= k < |s.prod.block| :: k in s.prod.done
    ensures View(s.mem, W(s), |s.prod.block|) == s.prod.block
  {
    hide OneQueue, InOrder, ConsumerOk, Content, Cursor, Count;
  }

  lemma PublishQueue(s: State, t: State)
    requires Inv(s) && ProducerStep(s, t, Publish)
    ensures OneQueue(t)
  {
    hide Cursors, Content, InOrder, ConsumerOk, TargetEnd, Meaning, IsBlock, LenField, Meanings, AcceptedOf, Cursor;
    var b := s.prod.block;
    NoneMeant();
    MeaningsSnoc(s.published, b);
    if s.prod.fromList {
      MeaningsHead(s.list);
    } else {
      LogSnoc(s.log, t.log[|s.log|]);
    }
  }

  lemma PublishInv(s: State, t: State)
    requires Inv(s) && ProducerStep(s, t, Publish)
    ensures Inv(t)
  {
    hide Cursors, Content, OneQueue, Cursor, TargetEnd;
    PublishMemory(s, t);
    PublishQueue(s, t);
    if s.cons.Loaded? {
      assert t.published[..s.cons.seen] == s.published[..s.cons.seen];
    }
  }

  lemma PurgeDoneInv(s: State, t: State)
    requires Inv(s) && ProducerStep(s, t, PurgeDone)
    ensures Inv(t)
  {
    hide Count, View, Addr, Cursor, LenField, Meaning, Flatten, IsBlock, Meanings, AcceptedOf;
    if t.log != s.log {
      LogSnoc(s.log, t.log[|s.log|]);
    }
  }

  /** Steps that only move the producer's control. */
  lemma QuietProducerInv(s: State, t: State, step: Step)
    requires Inv(s) && ProducerStep(s, t, step)
    requires step.Begin? || step.PurgeNext? || step.LoadW?
    ensures Inv(t)
  {
    hide Count, View, Addr, Cursor, LenField, Meaning, Meanings, AcceptedOf;
  }

  lemma ProducerInv(s: State, t: State, step: Step)
    requires Inv(s) && ProducerStep(s, t, step)
    ensures Inv(t)
  {
    match step
    case CopyByte(k) => CopyByteInv(s, t, k);
    case LoadR(oom) => LoadRInv(s, t, oom);
    case Publish => PublishInv(s, t);
    case PurgeDone => PurgeDoneInv(s, t);
    case _ => QuietProducerInv(s, t, step);
  }

  lemma PullStartInv(s: State, t: State)
    requires Inv(s) && ConsumerStep(s, t, PullStart)
    ensures Inv(t)
    ensures s.cons.seen == |s.pulled| <==> t.cons.Resting?
  {
    hide Flatten, View, Addr, LenField, Meanings, AcceptedOf;
    var seen := s.cons.seen;
    CountMonotone(s.published, |s.pulled|, seen);
    CountMonotone(s.published, seen, |s.published|);
    assert s.published[..|s.published|] == s.published;
    DistanceCounts(R(s), Count(s.published[..seen]), s.size);
  }

  lemma ReadHeaderByteInv(s: State, t: State, k: nat)
    requires Inv(s) && ConsumerStep(s, t, ReadHeaderByte(k))
    ensures Inv(t)
    ensures CopyAddr(s.r, HEADER, s.size, k) == Addr(R(s) + k, s.size)
  {
    hide Count, View, Cursor, Addr, LenField, Meanings, AcceptedOf, CopyAddr;
    CopyCounts(R(s), HEADER, s.size);
    ReadsStream(s, k);
  }

  lemma ReadPayloadByteInv(s: State, t: State, k: nat)
    requires Inv(s) && ConsumerStep(s, t, ReadPayloadByte(k))
    ensures Inv(t)
    ensures CopyAddr(Max0(CopyEnd(s.r, HEADER, s.size)), LenField(s.cons.header), s.size, k)
         == Addr(R(s) + HEADER + k, s.size)
  {
    hide Count, View, Cursor, Addr, LenField, Meanings, AcceptedOf;
    var b := s.published[|s.pulled|];
    TargetsCount(R(s), s.size, b);
    HeaderLength(b);
    assert Target(s.r, s.size, b, HEADER + k) == Addr(R(s) + (HEADER + k), s.size);
    ReadsStream(s, HEADER + k);
  }

  lemma FitsIs(b: Block, size: nat)
    ensures Fits(b, size) <==> IsBlock(b) && |b| < size
  {}

  lemma SameTails<T>(a: seq<T>, b: seq<T>, c: seq<T>, d: seq<T>)
    requires a + b == c + d && |a| == |c|
    ensures a == c && b == d
  {
    assert (a + b)[..|a|] == a && (c + d)[..|c|] == c;
    assert (a + b)[|a|..] == b && (c + d)[|c|..] == d;
  }

  lemma NextBlock(blocks: seq<Block>, i: nat)
    requires i < |blocks|
    ensures Flatten(blocks[i..]) == blocks[i] + Flatten(blocks[i + 1..])
  {
    assert blocks[i..][1..] == blocks[i + 1..];
  }

  lemma ReleaseMemory(s: State, t: State, step: Step)
    requires Inv(s) && ConsumerStep(s, t, step) && (step.Release? || step.DropBlock?)
    ensures Cursors(t) && Content(t)
    ensures W(t) == W(s) && R(t) == R(s) + |s.published[|s.pulled|]|
  {
    hide OneQueue, InOrder, ProducerOk, Addr, Cursor, CopyEnd, LenField, ReadBack, View, Flatten, Fits;
    var b := s.published[|s.pulled|];
    FitsIs(b, s.size);
    TargetsCount(R(s), s.size, b);
    HeaderLength(b);
    Split(s);
    assert t.published[..|t.pulled|] == s.published[..|s.pulled| + 1];
    NextBlock(s.published, |s.pulled|);
    ViewSplit(s.mem, R(s), |b|, W(s) - R(s) - |b|);
    SameTails(View(s.mem, R(s), |b|), View(s.mem, R(s) + |b|, W(s) - R(s) - |b|), b, Flatten(s.published[|s.pulled| + 1..]));
  }

  lemma HeaderLength(b: Block)
    requires IsBlock(b)
    ensures LenField(b[..HEADER]) == |b| - HEADER
  {}

  lemma ReleaseInv(s: State, t: State, step: Step)
    requires Inv(s) && ConsumerStep(s, t, step) && (step.Release? || step.DropBlock?)
    ensures Inv(t)
  {
    hide Content, OneQueue, Addr, Cursor, LenField, CopyEnd;
    ReleaseMemory(s, t, step);
    var b := s.published[|s.pulled|];
    HeaderLength(b);
    if step.Release? {
      assert s.cons.header + ReadBack(s.cons.got, LenField(s.cons.header)) == b;
    }
    QueueUntouched(s, t);
  }

  lemma QueueUntouched(s: State, t: State)
    requires OneQueue(s) && t.published == s.published && t.list == s.list && t.log == s.log && t.size == s.size
    ensures OneQueue(t)
  {}

  lemma ConsumerInv(s: State, t: State, step: Step)
    requires Inv(s) && ConsumerStep(s, t, step)
    ensures Inv(t)
  {
    hide View, Addr, Cursor, LenField, Meaning, Meanings, AcceptedOf;
    match step
    case PullLoad => assert s.published[..|s.published|] == s.published;
    case PullStart => PullStartInv(s, t);
    case ReadHeaderByte(k) => ReadHeaderByteInv(s, t, k);
    case HeaderDone =>
      assert t.cons.header == s.published[|s.pulled|][..HEADER];
    case ReadPayloadByte(k) => ReadPayloadByteInv(s, t, k);
    case DropBlock => ReleaseInv(s, t, step);
    case Release => ReleaseInv(s, t, step);
    case _ =>
  }

  // ---- all runs ----

  ghost predicate Run(trace: seq<State>) {
    && trace != [] && Init(trace[0])
    && forall i | 0 < i < |trace| :: Next(trace[i - 1], trace[i])
  }

  lemma {:induction false} RunInv(trace: seq<State>)
    requires Run(trace)
    ensures Inv(trace[|trace| - 1])
    decreases |trace|
  {
    var n := |trace| - 1;
    if n == 0 {
      InitInv(trace[0]);
    } else {
      var before := trace[..n];
      RunInv(before);
      assert before[n - 1] == trace[n - 1] && Next(trace[n - 1], trace[n]);
      var step :| ProducerStep(trace[n - 1], trace[n], step) || ConsumerStep(trace[n - 1], trace[n], step);
      if ProducerStep(trace[n - 1], trace[n], step) {
        ProducerInv(trace[n - 1], trace[n], step);
      } else {
        ConsumerInv(trace[n - 1], trace[n], step);
      }
    }
  }

  // ---- what the protocol guarantees ----

  /** The address a step of either process touches in the ring, if any. */
  function WriteAddr(s: State, k: nat): int
    requires s.prod.Copying? && |s.prod.block| >= HEADER
  {
    Target(s.prod.w, s.size, s.prod.block, k)
  }

  /** The producer never writes where a published, unreleased byte lies. */
  lemma NeverOverwrites(s: State, t: State, k: nat, x: nat)
    requires Inv(s) && ProducerStep(s, t, CopyByte(k)) && R(s) <= x < W(s)
    ensures WriteAddr(s, k) != Addr(x, s.size)
    ensures t.mem[Addr(x, s.size)] == s.mem[Addr(x, s.size)]
  {
    CopyByteInv(s, t, k);
    AddrInjective(x, W(s) + k, s.size);
  }

  /** The consumer reads only published, unreleased bytes, so never one that the producer may be writing. */
  lemma ReadsOnlyPublished(s: State, t: State, step: Step) returns (x: nat)
    requires Inv(s) && ConsumerStep(s, t, step) && (step.ReadHeaderByte? || step.ReadPayloadByte?)
    ensures R(s) <= x < W(s)
    ensures step.ReadHeaderByte? ==> CopyAddr(s.r, HEADER, s.size, step.k) == Addr(x, s.size)
    ensures step.ReadPayloadByte? ==>
              CopyAddr(Max0(CopyEnd(s.r, HEADER, s.size)), LenField(s.cons.header), s.size, step.k) == Addr(x, s.size)
  {
    hide ProducerOk, Content, OneQueue, Addr, Cursor, CopyAddr, CopyEnd, LenField;
    Split(s);
    var b := s.published[|s.pulled|];
    HeaderLength(b);
    match step
    case ReadHeaderByte(k) =>
      ReadHeaderByteInv(s, t, k);
      x := R(s) + k;
    case ReadPayloadByte(k) =>
      ReadPayloadByteInv(s, t, k);
      x := R(s) + HEADER + k;
  }

  /** No 32-bit cursor or size computed by either process wraps around. */
  lemma NoWrap(s: State)
    requires Inv(s)
    ensures s.w <= s.size && s.r <= s.size && s.size + HEADER < 0x1_0000_0000
    ensures s.prod.HasW? || s.prod.Copying? ==> |s.prod.block| + 1 < 0x1_0000_0000
    ensures s.prod.Copying? ==> CopyEnd(s.w, HEADER, s.size) + PayloadLen(s.prod.block) < 0x1_0000_0000
    ensures s.cons.ReadingHeader? || s.cons.ReadingPayload? ==> s.r + HEADER < 0x1_0000_0000
    ensures s.cons.ReadingPayload? ==>
              && |s.cons.header| == HEADER
              && 0 <= CopyEnd(s.r, HEADER, s.size) <= s.size
              && CopyEnd(s.r, HEADER, s.size) + LenField(s.cons.header) < 0x1_0000_0000
  {
    hide Content, OneQueue, InOrder, LenField;
    if s.cons.ReadingPayload? {
      HeaderLength(s.published[|s.pulled|]);
      CopyCounts(R(s), HEADER, s.size);
    }
  }

  /**
   The ring as `shmq_push` finds it while pushing `b`, unsafely: no byte to spare behind the block that has to go in
   first, be it `b` or one that waits on the list.
   */
  ghost predicate NoRoom(s: State, b: Block) {
    && s.prod.HasW? && s.prod.job == Push(b, false) && |s.pulled| <= |s.published|
    && s.size - (W(s) - R(s)) <= |if s.list == [] then b else s.list[0]|
  }

  /** An unsafe push of fitting length is refused for lack of room when there is none, and only then. */
  lemma RefusedExactly(s: State, t: State, step: Step)
    requires Inv(s) && ProducerStep(s, t, step)
    ensures s.log <= t.log && |t.log| <= |s.log| + 1
    ensures |t.log| > |s.log| ==>
              var e := t.log[|s.log|];
              e.outcome.Full? <==> PayloadLen(e.block) < s.size && !e.safe && step.LoadR? && NoRoom(s, e.block)
    ensures step.LoadR? && s.prod.job.Push? && !s.prod.job.safe && NoRoom(s, s.prod.job.block) ==> |t.log| > |s.log|
  {
    hide Content, InOrder, OneQueue, ConsumerOk, Cursor, Count, LenField, IsBlock, ListCopy, TargetEnd, Target;
    if step.LoadR? {
      FreeCounts(s);
    }
  }

  lemma {:induction false} FullHappened(trace: seq<State>, i: nat)
    requires Run(trace)
    requires var s := trace[|trace| - 1]; i < |s.log| && s.log[i].outcome.Full?
    ensures exists j :: 0 <= j < |trace| && NoRoom(trace[j], trace[|trace| - 1].log[i].block)
    decreases |trace|
  {
    hide Init, Inv, ProducerStep, ConsumerStep, NoRoom;
    var n := |trace| - 1;
    if n == 0 {
      StartsEmpty(trace[0]);
    } else {
      var before := trace[..n];
      assert before[n - 1] == trace[n - 1] && Next(trace[n - 1], trace[n]);
      RunInv(before);
      var step :| ProducerStep(trace[n - 1], trace[n], step) || ConsumerStep(trace[n - 1], trace[n], step);
      if ProducerStep(trace[n - 1], trace[n], step) {
        RefusedExactly(trace[n - 1], trace[n], step);
      } else {
        ConsumerLog(trace[n - 1], trace[n], step);
      }
      if i < |trace[n - 1].log| {
        FullHappened(before, i);
        var j :| 0 <= j < |before| && NoRoom(before[j], before[n - 1].log[i].block);
        assert NoRoom(trace[j], trace[n].log[i].block);
      }
    }
  }

  lemma EveryFull(trace: seq<State>, s: State)
    requires Run(trace) && s == trace[|trace| - 1]
    ensures forall i | 0 <= i < |s.log| && s.log[i].outcome.Full? ::
              exists j :: 0 <= j < |trace| && NoRoom(trace[j], s.log[i].block)
  {
    hide Init, Next, NoRoom;
    forall i | 0 <= i < |s.log| && s.log[i].outcome.Full?
      ensures exists j :: 0 <= j < |trace| && NoRoom(trace[j], s.log[i].block)
    {
      FullHappened(trace, i);
    }
  }

  lemma StartsEmpty(s: State)
    requires Init(s)
    ensures s.log == []
  {
  }

  lemma ConsumerLog(s: State, t: State, step: Step)
    requires ConsumerStep(s, t, step)
    ensures t.log == s.log
  {
  }

  lemma MeaningAt(s: State, i: nat)
    requires Inv(s) && i < |s.pulled|
    ensures i < |AcceptedOf(s.log)| && AcceptedOf(s.log)[i] == Meaning(s.published[i])
  {
    hide Cursors, Content, ProducerOk, ConsumerOk, Meaning, AcceptedOf;
    assert (Meanings(s.published) + Meanings(s.list))[i] == Meanings(s.published)[i];
  }

  /**
   In every reachable state of every interleaving: what was pulled is, in order, a prefix of
   what was accepted, block for block and byte for byte (a block is missing only where the
   consumer ran out of memory); what was accepted and not yet pulled is still in the ring or
   on the overflow list; a safe push is refused only for its length or for lack of memory, an
   unsafe one for lack of room only if there was none at some moment during it.
   */
  lemma RingSafety(trace: seq<State>)
    requires Run(trace)
    ensures var s := trace[|trace| - 1];
            && |s.pulled| <= |AcceptedOf(s.log)|
            && (forall i | 0 <= i < |s.pulled| && s.pulled[i].Got? ::
                  IsBlock(s.pulled[i].block) && Meaning(s.pulled[i].block) == AcceptedOf(s.log)[i])
            && |s.pulled| <= |s.published|
            && AcceptedOf(s.log)[|s.pulled|..] == Meanings(s.published[|s.pulled|..]) + Meanings(s.list)
            && (forall i | 0 <= i < |s.log| && s.log[i].safe && PayloadLen(s.log[i].block) < s.size ::
                  s.log[i].outcome in {Enqueued, NoMemory})
            && (forall i | 0 <= i < |s.log| && s.log[i].outcome.Full? ::
                  exists j :: 0 <= j < |trace| && NoRoom(trace[j], s.log[i].block))
  {
    var s := trace[|trace| - 1];
    hide Cursors, Content, ProducerOk, ConsumerOk, Meaning, AcceptedOf, IsBlock, Run, NoRoom;
    RunInv(trace);
    EveryFull(trace, s);
    forall i | 0 <= i < |s.pulled| && s.pulled[i].Got?
      ensures i < |AcceptedOf(s.log)| && IsBlock(s.pulled[i].block)
           && Meaning(s.pulled[i].block) == AcceptedOf(s.log)[i]
    {
      MeaningAt(s, i);
    }
    assert Meanings(s.published)[|s.pulled|..] == Meanings(s.published[|s.pulled|..]);
    assert |AcceptedOf(s.log)| == |s.published| + |s.list|;
  }

  /**
   The length check lets a payload of size-16 to size-1 bytes onto the list, but no such block can ever enter the
   ring: from it on, nothing that was accepted is ever handed to the consumer.
   */
  lemma OversizedBlocksTheQueue(trace: seq<State>, i: nat)
    requires Run(trace)
    requires var s := trace[|trace| - 1];
             i < |AcceptedOf(s.log)| && |AcceptedOf(s.log)[i].1| + HEADER >= s.size
    ensures var s := trace[|trace| - 1];
            |s.pulled| <= |s.published| <= i
  {
    var s := trace[|trace| - 1];
    RunInv(trace);
    hide Content, ProducerOk, ConsumerOk, AcceptedOf, LenField;
    forall j | 0 <= j < |s.published|
      ensures j < |AcceptedOf(s.log)| && |AcceptedOf(s.log)[j].1| + HEADER < s.size
    {
      assert (Meanings(s.published) + Meanings(s.list))[j] == Meaning(s.published[j]);
      assert Fits(s.published[j], s.size);
    }
  }
}
