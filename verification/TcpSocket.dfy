/**
 A client connection of async-server/src/tcp_socket.cpp: the receive buffer that cuts the
 byte stream into length-prefixed packets, and the list of buffers that wait for the kernel.
 */
module TcpSocket {
  import opened ByteStrings

  // ---- packets ----

  const INITIAL_SIZE: nat := 4096

  /** `get_pkg_len_cli` of the proxy plugin: the first four bytes, little-endian; 0 when they are not there yet. */
  function PkgLen(s: seq<Byte>): nat {
    if |s| < 4 then 0
    else
      var b0: int, b1: int, b2: int, b3: int := s[0], s[1], s[2], s[3];
      b0 + 0x100 * b1 + 0x1_0000 * b2 + 0x100_0000 * b3
  }

  /** The packets of a byte stream, the bytes after the last one, and whether those start with a bad length. */
  datatype Framing = Framing(packets: seq<seq<Byte>>, rest: seq<Byte>, bad: bool)

  function Frames(s: seq<Byte>, max: nat): Framing {
    var n := PkgLen(s);
    if n > max then Framing([], s, true)
    else if n == 0 || n > |s| then Framing([], s, false)
    else
      var f := Frames(s[n..], max);
      Framing([s[..n]] + f.packets, f.rest, f.bad)
  }

  /** Cutting loses and invents nothing. */
  lemma {:induction false} FramesConserve(s: seq<Byte>, max: nat)
    ensures Flatten(Frames(s, max).packets) + Frames(s, max).rest == s
  {
    hide PkgLen;
    var n := PkgLen(s);
    if n <= max && n != 0 && n <= |s| {
      var f := Frames(s[n..], max);
      FramesConserve(s[n..], max);
      assert ([s[..n]] + f.packets)[1..] == f.packets;
      assert s[..n] + Flatten(f.packets) + f.rest == s[..n] + s[n..];
    }
  }

  lemma PkgLenExtends(s: seq<Byte>, t: seq<Byte>)
    requires PkgLen(s) > 0
    ensures PkgLen(s + t) == PkgLen(s)
  {}

  lemma FramesUnfold(s: seq<Byte>, max: nat)
    ensures var n := PkgLen(s);
            Frames(s, max) == if n > max then Framing([], s, true)
                              else if n == 0 || n > |s| then Framing([], s, false)
                              else Framing([s[..n]] + Frames(s[n..], max).packets, Frames(s[n..], max).rest,
                                           Frames(s[n..], max).bad)
  {}

  /** Cutting can be resumed where it stopped. */
  lemma {:induction false} FramesResume(s: seq<Byte>, t: seq<Byte>, max: nat)
    requires !Frames(s, max).bad
    ensures var f := Frames(s, max);
            var g := Frames(f.rest + t, max);
            Frames(s + t, max) == Framing(f.packets + g.packets, g.rest, g.bad)
    decreases |s|
  {
    hide PkgLen, Frames;
    FramesUnfold(s, max);
    FramesUnfold(s + t, max);
    var n := PkgLen(s);
    if n == 0 || n > |s| {
      assert [] + Frames(s + t, max).packets == Frames(s + t, max).packets;
    } else {
      PkgLenExtends(s, t);
      assert (s + t)[n..] == s[n..] + t && (s + t)[..n] == s[..n];
      FramesResume(s[n..], t, max);
      var f := Frames(s[n..], max);
      var g := Frames(f.rest + t, max);
      assert [s[..n]] + (f.packets + g.packets) == [s[..n]] + f.packets + g.packets;
    }
  }

  /** What recv came back with. */
  datatype Recv = Data(bytes: seq<Byte>) | Eof | Again | Broken

  /** Why `handle_input` returns; only `Fine` is true. */
  datatype Verdict = Fine | BadLength | HeadTooBig | Vetoed | Closed

  class Receiver {
    var buf: array<Byte>          // m_recv_buf, m_recv_buf_size bytes
    var pos: nat                  // m_recv_pos
    var closing: bool             // m_is_closed
    const max: nat                // g_max_pkg_len
    ghost var stream: seq<Byte>   // everything received before closing
    var offered: seq<seq<Byte>>   // the packets handed to recv_push

    predicate CapacityOk(capacity: nat) {
      INITIAL_SIZE <= capacity && (capacity == INITIAL_SIZE || capacity <= max)
    }

    ghost predicate Shape()
      reads this
    {
      pos < buf.Length && CapacityOk(buf.Length)
    }

    /** Between calls there is always room to receive into, and exactly the whole packets have been offered. */
    ghost predicate Valid()
      reads this, buf
    {
      && Shape()
      && (!closing ==> Frames(stream, max) == Framing(offered, buf[..pos], false))
    }

    constructor (max: nat)
      requires max <= 0x7FFF_FFFF
      ensures Valid() && stream == [] && offered == [] && !closing && this.max == max && fresh(buf)
    {
      this.max := max;
      buf := new Byte[INITIAL_SIZE](_ => 0);
      pos, closing, stream, offered := 0, false, [], [];
    }

    /** `objects(k)`: the plugin objects to what came of the `k`-th packet offered. */
    method HandleInput(r: Recv, objects: nat -> bool) returns (v: Verdict)
      requires Valid()
      requires r.Data? ==> 0 < |r.bytes| <= buf.Length - pos
      modifies this, buf
      ensures old(offered) <= offered && (buf == old(buf) || fresh(buf)) && closing == old(closing)
      ensures v.Fine? ==> Valid()
      ensures stream == if r.Data? && !closing then old(stream) + r.bytes else old(stream)
      ensures v.BadLength? ==> Frames(stream, max).bad && offered == Frames(stream, max).packets
      ensures v.HeadTooBig? ==> Stuck(Frames(stream, max)) && offered == Frames(stream, max).packets
      ensures v.HeadTooBig? ==> |Frames(stream, max).rest| == buf.Length
      ensures v.Vetoed? ==> offered <= Frames(stream, max).packets
      ensures v.Vetoed? ==> |old(offered)| < |offered| && objects(|offered| - 1)
      ensures forall k | |old(offered)| <= k < |offered| && (k < |offered| - 1 || !v.Vetoed?) :: !objects(k)
      ensures v.Closed? <==> r.Eof? || r.Broken?
      ensures !r.Data? || closing ==> offered == old(offered)
    {
      hide PkgLen, Frames;
      match r
      case Eof => return Closed;
      case Broken => return Closed;
      case Again => return Fine;
      case Data(bytes) =>
        if closing {
          pos := 0;
          return Fine;
        }
        ghost var before := buf[..pos];
        forall i | 0 <= i < |bytes| {
          buf[pos + i] := bytes[i];
        }
        pos := pos + |bytes|;
        assert buf[..pos] == before + bytes;
        FramesResume(stream, bytes, max);
        stream := stream + bytes;
        v := Cut(objects);
    }

    /** The packet loop of `handle_input`, from READ to MOVE. */
    method Cut(objects: nat -> bool) returns (v: Verdict)
      requires 0 < pos <= buf.Length && CapacityOk(buf.Length) && !closing
      requires var f := Frames(buf[..pos], max);
               Frames(stream, max) == Framing(offered + f.packets, f.rest, f.bad)
      modifies this`buf, this`pos, this`offered, buf
      ensures v in {Fine, BadLength, HeadTooBig, Vetoed}
      ensures old(offered) <= offered && (buf == old(buf) || fresh(buf))
      ensures v.Fine? ==> Valid()
      ensures v.BadLength? ==> Frames(stream, max).bad && offered == Frames(stream, max).packets
      ensures v.HeadTooBig? ==> Stuck(Frames(stream, max)) && offered == Frames(stream, max).packets
      ensures v.HeadTooBig? ==> |Frames(stream, max).rest| == buf.Length
      ensures v.Vetoed? ==> offered <= Frames(stream, max).packets
      ensures v.Vetoed? ==> |old(offered)| < |offered| && objects(|offered| - 1)
      ensures forall k | |old(offered)| <= k < |offered| && (k < |offered| - 1 || !v.Vetoed?) :: !objects(k)
    {
      hide PkgLen, Frames, Valid;
      var p := 0;
      ghost var tail := buf[..pos];
      assert buf[0..pos] == tail;
      while true
        invariant buf == old(buf) && pos == old(pos) && 0 <= p < pos
        invariant old(offered) <= offered && (p == 0 ==> offered == old(offered))
        invariant forall k | |old(offered)| <= k < |offered| :: !objects(k)
        invariant var f := Frames(buf[p..pos], max);
                  Frames(stream, max) == Framing(offered + f.packets, f.rest, f.bad)
        decreases pos - p
      {
        tail := buf[p..pos];
        var len := PkgLen(buf[p..pos]);
        FrontPacket(offered, tail, stream, max);
        if len > max {
          return BadLength;
        }
        if len == 0 {
          if p != 0 {
            break;
          }
          if pos == buf.Length {
            return HeadTooBig;
          }
          break;
        } else if p == 0 && len > buf.Length {
          Grow(len);
          assert buf[0..pos] == tail;
          break;
        } else if len + p <= pos {
          assert tail[..len] == buf[p..p + len] && tail[len..] == buf[p + len..pos];
          offered := offered + [buf[p..p + len]];
          if objects(|offered| - 1) {
            return Vetoed;
          }
          p := p + len;
          if p == pos {
            tail := [];
            break;
          }
        } else {
          break;
        }
      }
      assert buf[p..pos] == tail;
      Move(p);
      return Fine;
    }

    /** `realloc` of the receive buffer. */
    method Grow(len: nat)
      requires pos <= buf.Length < len
      modifies this`buf
      ensures fresh(buf) && buf.Length == len && buf[..pos] == old(buf[..pos])
    {
      var bigger := new Byte[len](i requires 0 <= i < len reads this, buf => if i < buf.Length then buf[i] else 0);
      assert bigger[..pos] == buf[..pos];
      buf := bigger;
    }

    /** MOVE: the bytes behind the last packet come to the front. */
    method Move(p: nat)
      requires p <= pos <= buf.Length && CapacityOk(buf.Length) && (p == 0 ==> pos < buf.Length)
      requires Frames(stream, max) == Framing(offered, buf[p..pos], false)
      modifies this`pos, buf
      ensures Valid()
    {
      hide Frames;
      if p == 0 {
        assert buf[0..pos] == buf[..pos];
        return;
      }
      ghost var tail := buf[p..pos];
      var k := pos - p;
      forall i | 0 <= i < k {
        buf[i] := buf[p + i];
      }
      assert buf[..k] == tail;
      pos := k;
    }
  }

  /** What the length at the front of what is left says of the whole stream. */
  lemma FrontPacket(before: seq<seq<Byte>>, tail: seq<Byte>, stream: seq<Byte>, max: nat)
    requires var f := Frames(tail, max); Frames(stream, max) == Framing(before + f.packets, f.rest, f.bad)
    ensures var n := PkgLen(tail);
            if n > max then Frames(stream, max) == Framing(before, tail, true)
            else if n == 0 || n > |tail| then Frames(stream, max) == Framing(before, tail, false)
            else
              && before + [tail[..n]] <= Frames(stream, max).packets
              && (var g := Frames(tail[n..], max);
                  Frames(stream, max) == Framing(before + [tail[..n]] + g.packets, g.rest, g.bad))
              && (n == |tail| ==> Frames(stream, max) == Framing(before + [tail[..n]], [], false))
  {
    hide PkgLen, Frames;
    FramesUnfold(tail, max);
    NoFrames(max);
    assert before + [] == before;
    var n := PkgLen(tail);
    if 0 < n <= max && n <= |tail| {
      Associate(before, [tail[..n]], Frames(tail[n..], max).packets);
      if n == |tail| {
        assert tail[n..] == [] && before + [tail[..n]] + [] == before + [tail[..n]];
      }
    }
  }

  /** A bad length stays bad. */
  lemma {:induction false} FramesStayBad(s: seq<Byte>, t: seq<Byte>, max: nat)
    requires Frames(s, max).bad
    ensures Frames(s + t, max).bad && Frames(s + t, max).packets == Frames(s, max).packets
    decreases |s|
  {
    hide PkgLen, Frames;
    FramesUnfold(s, max);
    FramesUnfold(s + t, max);
    PkgLenExtends(s, t);
    var n := PkgLen(s);
    if n <= max {
      assert (s + t)[n..] == s[n..] + t && (s + t)[..n] == s[..n];
      FramesStayBad(s[n..], t, max);
    }
  }

  /** The bytes after the last packet start with a length of zero, which is never a packet. */
  predicate Stuck(f: Framing) {
    !f.bad && |f.rest| >= 4 && PkgLen(f.rest) == 0
  }

  /** A length of zero is never got past. */
  lemma FramesStayStuck(s: seq<Byte>, t: seq<Byte>, max: nat)
    requires Stuck(Frames(s, max))
    ensures Frames(s + t, max).packets == Frames(s, max).packets && Stuck(Frames(s + t, max))
  {
    var f := Frames(s, max);
    FramesResume(s, t, max);
    assert PkgLen(f.rest + t) == 0;
    FramesUnfold(f.rest + t, max);
  }

  /** More bytes only add packets. */
  lemma FramesGrow(s: seq<Byte>, t: seq<Byte>, max: nat)
    ensures Frames(s, max).packets <= Frames(s + t, max).packets
  {
    if Frames(s, max).bad {
      FramesStayBad(s, t, max);
    } else {
      FramesResume(s, t, max);
    }
  }

  /** A whole stream, received in pieces of any sizes that recv may choose. */
  method ReceiveStream(s: seq<Byte>, max: nat, objects: nat -> bool) returns (offered: seq<seq<Byte>>, v: Verdict)
    requires max <= 0x7FFF_FFFF
    ensures v in {Fine, BadLength, HeadTooBig, Vetoed}
    ensures !v.Vetoed? ==> offered == Frames(s, max).packets && (v.BadLength? <==> Frames(s, max).bad)
    ensures v.HeadTooBig? ==> Stuck(Frames(s, max))
    ensures v.Vetoed? ==> offered != [] && objects(|offered| - 1) && offered <= Frames(s, max).packets
  {
    hide Frames, PkgLen;
    var r := new Receiver(max);
    var i := 0;
    NoFrames(max);
    assert s[..0] == [];
    while i < |s|
      invariant 0 <= i <= |s| && r.Valid() && fresh(r) && fresh(r.buf) && !r.closing && r.max == max
      invariant r.stream == s[..i]
    {
      var k: nat :| 0 < k <= r.buf.Length - r.pos && k <= |s| - i;
      v := r.HandleInput(Data(s[i..i + k]), objects);
      assert s[..i] + s[i..i + k] == s[..i + k];
      if !v.Fine? {
        if v.BadLength? {
          FramesStayBad(s[..i + k], s[i + k..], max);
          assert s[..i + k] + s[i + k..] == s;
        } else if v.HeadTooBig? {
          FramesStayStuck(s[..i + k], s[i + k..], max);
          assert s[..i + k] + s[i + k..] == s;
        } else {
          FramesGrow(s[..i + k], s[i + k..], max);
          assert s[..i + k] + s[i + k..] == s;
        }
        return r.offered, v;
      }
      i := i + k;
    }
    assert s[..i] == s;
    return r.offered, Fine;
  }

  // ---- packets as a client writes them ----

  /** A payload behind the length of the whole packet. */
  function Packet(payload: seq<Byte>): seq<Byte> {
    Word(|payload| + 4) + payload
  }

  function Packets(payloads: seq<seq<Byte>>): (r: seq<seq<Byte>>)
    ensures |r| == |payloads|
  {
    if payloads == [] then [] else [Packet(payloads[0])] + Packets(payloads[1..])
  }

  lemma WordIs(n: nat, t: seq<Byte>)
    requires n < 0x1_0000_0000
    ensures PkgLen(Word(n) + t) == n
  {
    var s := Word(n) + t;
    assert s[0] == n % 0x100 && s[1] == n / 0x100 % 0x100 && s[2] == n / 0x1_0000 % 0x100;
    assert s[3] == n / 0x100_0000 % 0x100;
    Digits256(n);
  }

  /** Whatever packets a client writes come out as written, with what follows them cut on its own. */
  lemma {:induction false} PacketsCut(payloads: seq<seq<Byte>>, t: seq<Byte>, max: nat)
    requires max <= 0x7FFF_FFFF && forall i | 0 <= i < |payloads| :: |payloads[i]| + 4 <= max
    ensures var f := Frames(t, max);
            Frames(Flatten(Packets(payloads)) + t, max) == Framing(Packets(payloads) + f.packets, f.rest, f.bad)
  {
    hide PkgLen, Frames, Word;
    var s := Flatten(Packets(payloads)) + t;
    if payloads == [] {
      assert s == t && [] + Frames(t, max).packets == Frames(t, max).packets;
    } else {
      var p, more := Packet(payloads[0]), Packets(payloads[1..]);
      assert Packets(payloads)[1..] == more;
      assert s == p + (Flatten(more) + t) == Word(|p|) + (payloads[0] + (Flatten(more) + t));
      WordIs(|p|, payloads[0] + (Flatten(more) + t));
      FramesUnfold(s, max);
      assert s[..|p|] == p && s[|p|..] == Flatten(more) + t;
      PacketsCut(payloads[1..], t, max);
      Associate([p], more, Frames(t, max).packets);
    }
  }

  /** The length that a stream starts with. */
  predicate Starts(s: seq<Byte>, n: nat) {
    |s| >= 4 && n < 0x1_0000_0000 && s[..4] == Word(n)
  }

  /** Packet by packet: each starts with its own length; the rest starts with a bad length or with no whole packet. */
  ghost predicate CutInto(s: seq<Byte>, f: Framing, max: nat)
    decreases |f.packets|
  {
    if f.packets == [] then
      && f.rest == s && (f.bad <==> exists n :: n > max && Starts(s, n))
      && !exists n :: 0 < n <= max && n <= |s| && Starts(s, n)
    else
      var p := f.packets[0];
      && p <= s && 0 < |p| <= max && Starts(s, |p|)
      && CutInto(s[|p|..], Framing(f.packets[1..], f.rest, f.bad), max)
  }

  lemma StartsIs(s: seq<Byte>, n: nat)
    ensures Starts(s, n) <==> |s| >= 4 && PkgLen(s) == n
  {
    if |s| >= 4 {
      var b0: int, b1: int, b2: int, b3: int := s[0], s[1], s[2], s[3];
      var m := PkgLen(s);
      assert m / 0x100 == b1 + 0x100 * b2 + 0x1_0000 * b3;
      assert m / 0x1_0000 == b2 + 0x100 * b3;
      assert m / 0x100_0000 == b3;
      assert s[..4] == Word(m);
      if Starts(s, n) {
        assert s == Word(n) + s[4..];
        WordIs(n, s[4..]);
      }
    }
  }

  lemma {:induction false} FramesExactly(s: seq<Byte>, f: Framing, max: nat)
    ensures Frames(s, max) == f <==> CutInto(s, f, max)
    decreases |s|
  {
    hide PkgLen, Frames, Starts;
    var n := PkgLen(s);
    FramesUnfold(s, max);
    forall k: nat ensures Starts(s, k) <==> |s| >= 4 && n == k {
      StartsIs(s, k);
    }
    NoLength(s);
    assert |s| >= 4 ==> Starts(s, n);
    if 0 < n <= max && n <= |s| {
      var g := Frames(s[n..], max);
      assert ([s[..n]] + g.packets)[1..] == g.packets;
      if f.packets != [] {
        FramesExactly(s[n..], Framing(f.packets[1..], f.rest, f.bad), max);
        assert f.packets == [f.packets[0]] + f.packets[1..];
        assert f.packets[0] <= s && |f.packets[0]| == n ==> f.packets[0] == s[..n];
      }
    }
  }

  lemma NoLength(s: seq<Byte>)
    ensures |s| < 4 ==> PkgLen(s) == 0
  {
  }

  /** A client's packets, received in pieces of any sizes, are offered one by one as they were written. */
  method ReceivePackets(payloads: seq<seq<Byte>>, max: nat, objects: nat -> bool)
    returns (offered: seq<seq<Byte>>, v: Verdict)
    requires max <= 0x7FFF_FFFF && forall i | 0 <= i < |payloads| :: |payloads[i]| + 4 <= max
    ensures v == Fine || v == Vetoed
    ensures v.Fine? ==> offered == Packets(payloads)
    ensures v.Vetoed? ==> offered != [] && offered <= Packets(payloads) && objects(|offered| - 1)
    ensures (forall k | 0 <= k < |payloads| :: !objects(k)) ==> v.Fine?
  {
    hide Frames;
    PacketsCut(payloads, [], max);
    NoFrames(max);
    var s := Flatten(Packets(payloads));
    assert s + [] == s && Packets(payloads) + [] == Packets(payloads);
    offered, v := ReceiveStream(s, max, objects);
    assert !Stuck(Frames(s, max));
  }

  lemma NoFrames(max: nat)
    ensures Frames([], max) == Framing([], [], false)
  {}

  // ---- waiting for the kernel ----

  const MAX_SEND_LIST_SIZE: nat := 1024

  /** 8192 bytes less the length field. */
  const BUF_LEN: nat := 8188

  /** What send came back with. */
  datatype Sent = Took(n: nat) | WouldBlock | SendFailed

  datatype Drained = Drained(taken: nat, ok: bool)

  /** What the kernel takes of the buffers, from byte `pos` of the first on, and whether the connection lives. */
  function Drain(list: seq<seq<Byte>>, pos: nat, answers: seq<Sent>): Drained
    decreases |answers|
  {
    if list == [] || answers == [] then Drained(0, true)
    else match answers[0]
      case WouldBlock => Drained(0, true)
      case SendFailed => Drained(0, false)
      case Took(k) =>
        if k == 0 || pos >= |list[0]| then Drained(0, false)
        else if pos + k < |list[0]| then
          var d := Drain(list, pos + k, answers[1..]);
          Drained(k + d.taken, d.ok)
        else
          var d := Drain(list[1..], 0, answers[1..]);
          Drained(|list[0]| - pos + d.taken, d.ok)
  }

  lemma DrainStep(list: seq<seq<Byte>>, pos: nat, answers: seq<Sent>, i: nat)
    requires list != [] && pos < |list[0]| && i < |answers|
    ensures var rest := answers[i + 1..];
            Drain(list, pos, answers[i..])
            == match answers[i]
               case WouldBlock => Drained(0, true)
               case SendFailed => Drained(0, false)
               case Took(k) =>
                 if k == 0 then Drained(0, false)
                 else if pos + k < |list[0]| then
                   Drained(k + Drain(list, pos + k, rest).taken, Drain(list, pos + k, rest).ok)
                 else
                   Drained(|list[0]| - pos + Drain(list[1..], 0, rest).taken, Drain(list[1..], 0, rest).ok)
  {
    assert answers[i..][1..] == answers[i + 1..] && answers[i..][0] == answers[i];
  }

  lemma DrainNone(list: seq<seq<Byte>>, pos: nat, answers: seq<Sent>, i: nat)
    requires i <= |answers| && (list == [] || i == |answers|)
    ensures Drain(list, pos, answers[i..]) == Drained(0, true)
  {
  }

  /** The kernel takes at least a byte each time. */
  predicate AllTook(answers: seq<Sent>) {
    forall i | 0 <= i < |answers| :: answers[i].Took? && answers[i].n > 0
  }

  predicate Filled(list: seq<seq<Byte>>, pos: nat) {
    && (forall i | 0 <= i < |list| :: list[i] != [])
    && if list == [] then pos == 0 else pos < |list[0]|
  }

  /** A kernel that goes on taking gets everything. */
  lemma {:induction false} DrainAll(list: seq<seq<Byte>>, pos: nat, answers: seq<Sent>)
    requires Filled(list, pos) && AllTook(answers) && |answers| >= |Flatten(list)| - pos
    ensures Drain(list, pos, answers) == Drained(|Flatten(list)| - pos, true)
    decreases |answers|
  {
    if list != [] && answers != [] {
      var k := answers[0].n;
      if pos + k < |list[0]| {
        DrainAll(list, pos + k, answers[1..]);
      } else {
        DrainAll(list[1..], 0, answers[1..]);
      }
    }
  }

  /** While bytes wait, the first answer other than a count ends the round; the connection ends iff it is a failure. */
  lemma {:induction false} DrainStops(list: seq<seq<Byte>>, pos: nat, took: seq<Sent>, r: Sent, more: seq<Sent>)
    requires Filled(list, pos) && AllTook(took) && !r.Took?
    requires Drain(list, pos, took).taken < |Flatten(list)| - pos
    ensures Drain(list, pos, took + [r] + more) == Drained(Drain(list, pos, took).taken, r.WouldBlock?)
    decreases |took|
  {
    var answers := took + [r] + more;
    if took == [] {
      assert answers[0] == r;
    } else {
      var k := took[0].n;
      assert answers[0] == took[0] && answers[1..] == took[1..] + [r] + more;
      if pos + k < |list[0]| {
        DrainStops(list, pos + k, took[1..], r, more);
      } else {
        DrainStops(list[1..], 0, took[1..], r, more);
      }
    }
  }

  predicate Possible(r: Sent, len: nat) {
    r.Took? ==> 0 < r.n <= len
  }

  class Sender {
    var list: seq<seq<Byte>>      // m_send_list: what each buffer holds
    var listSize: nat             // m_send_list_size
    var pos: nat                  // m_send_pos
    var closing: bool             // m_is_closed
    var armed: bool               // EPOLLOUT is registered
    var dead: bool                // handle_error was reached
    ghost var wire: seq<Byte>     // bytes the kernel took
    ghost var accepted: seq<Byte> // whole packets accepted for sending

    /** The kernel's bytes, then the waiting ones, are the accepted packets. */
    ghost predicate Valid()
      reads this
    {
      && listSize == |list|
      && (forall i | 0 <= i < |list| :: 0 < |list[i]| <= BUF_LEN)
      && (if list == [] then pos == 0 else pos < |list[0]|)
      && armed == (list != [])
      && accepted == wire + Flatten(list)[pos..]
    }

    constructor ()
      ensures Valid() && accepted == [] && wire == [] && list == [] && !closing && !dead
    {
      list, listSize, pos, closing, armed, dead := [], 0, 0, false, false, false;
      wire, accepted := [], [];
    }

    /** Fills buffers with the packet from byte `p` on. */
    method AppendBuffers(packet: seq<Byte>, start: nat)
      requires start < |packet| && (list != [] ==> pos < |list[0]|) && (list == [] ==> pos == 0)
      requires listSize == |list| && forall i | 0 <= i < |list| :: 0 < |list[i]| <= BUF_LEN
      modifies this`list, this`listSize
      ensures list != [] && pos < |list[0]| && listSize == |list|
      ensures forall i | 0 <= i < |list| :: 0 < |list[i]| <= BUF_LEN
      ensures Flatten(list) == old(Flatten(list)) + packet[start..]
    {
      hide Flatten;
      var p := start;
      ghost var old_list := list;
      assert packet[start..start] == [];
      while p < |packet|
        invariant start <= p <= |packet| && listSize == |list|
        invariant forall i | 0 <= i < |list| :: 0 < |list[i]| <= BUF_LEN
        invariant Flatten(list) == Flatten(old_list) + packet[start..p]
        invariant p > start ==> list != []
        invariant list != [] ==> (old_list == [] && pos == 0) || pos < |list[0]|
        invariant old_list != [] ==> list != []
      {
        var size := if BUF_LEN > |packet| - p then |packet| - p else BUF_LEN;
        FlattenSnoc(list, packet[p..p + size]);
        SliceJoin(packet, start, p, p + size);
        list := list + [packet[p..p + size]];
        listSize := listSize + 1;
        p := p + size;
      }
      assert packet[start..p] == packet[start..];
    }

    /** The part of `send_pkg` that queues behind waiting bytes: tops up the last buffer, then adds new ones. */
    method AppendToWaiting(packet: seq<Byte>)
      requires packet != [] && list != [] && pos < |list[0]|
      requires listSize == |list| && forall i | 0 <= i < |list| :: 0 < |list[i]| <= BUF_LEN
      modifies this`list, this`listSize
      ensures list != [] && pos < |list[0]| && listSize == |list|
      ensures forall i | 0 <= i < |list| :: 0 < |list[i]| <= BUF_LEN
      ensures Flatten(list) == old(Flatten(list)) + packet
    {
      hide Flatten;
      var last := list[|list| - 1];
      var size := BUF_LEN - |last|;
      if size >= |packet| {
        size := |packet|;
      }
      TopUp(list, packet[..size]);
      list := list[..|list| - 1] + [last + packet[..size]];
      if size < |packet| {
        AppendBuffers(packet, size);
        assert packet[..size] + packet[size..] == packet;
      } else {
        assert packet[..size] == packet;
      }
    }

    /** `send_pkg`; `r` is the kernel's answer to the direct send when nothing is waiting. */
    method SendPkg(packet: seq<Byte>, r: Sent)
      requires Valid() && !dead && packet != [] && Possible(r, |packet|)
      modifies this
      ensures closing == old(closing)
      ensures dead <==> old(list) == [] && r.SendFailed?
      ensures !dead ==> Valid()
      ensures accepted == if dead || (old(list) != [] && old(listSize) >= MAX_SEND_LIST_SIZE)
                          then old(accepted) else old(accepted) + packet
      ensures wire == old(wire) + if old(list) == [] && r.Took? then packet[..r.n] else []
    {
      hide Flatten;
      if list != [] {
        if listSize >= MAX_SEND_LIST_SIZE {
          return;
        }
        ghost var waiting := Flatten(list);
        FirstFits(list, pos);
        AppendToWaiting(packet);
        accepted := accepted + packet;
        assert (waiting + packet)[pos..] == waiting[pos..] + packet;
      } else {
        SendDirect(packet, r);
      }
    }

    /** The part of `send_pkg` for an empty list: the kernel first, buffers for what it leaves. */
    method SendDirect(packet: seq<Byte>, r: Sent)
      requires Valid() && !dead && list == [] && packet != [] && Possible(r, |packet|)
      modifies this
      ensures closing == old(closing) && (dead <==> r.SendFailed?)
      ensures !dead ==> Valid() && accepted == old(accepted) + packet
      ensures dead ==> accepted == old(accepted)
      ensures wire == old(wire) + if r.Took? then packet[..r.n] else []
    {
      hide Flatten;
      var p := 0;
      NothingWaiting();
      assert accepted == wire;
      ghost var sent := wire;
      match r {
        case Took(n) =>
          wire := wire + packet[..n];
          if n == |packet| {
            assert packet[..n] == packet && wire + [] == wire;
            accepted := accepted + packet;
            return;
          }
          p := n;
        case WouldBlock =>
        case SendFailed =>
          dead := true;
          return;
      }
      Rejoin(sent, packet, p);
      assert wire == sent + packet[..p];
      AppendBuffers(packet, p);
      assert Flatten(list)[pos..] == packet[p..];
      accepted := accepted + packet;
      armed := true;
    }

    /** The kernel took `n` bytes of the first buffer. */
    method Advance(n: nat)
      requires Waiting() && list != [] && 0 < n <= |list[0]| - pos
      modifies this`list, this`listSize, this`pos, this`wire
      ensures Waiting() && wire == old(wire + list[0][pos..pos + n])
      ensures if old(pos) + n < |old(list)[0]| then list == old(list) && pos == old(pos) + n
              else list == old(list)[1..] && pos == 0
    {
      hide Flatten;
      HeadBytes(list, pos, n);
      wire := wire + list[0][pos..pos + n];
      pos := pos + n;
      if pos == |list[0]| {
        list := list[1..];
        listSize := listSize - 1;
        pos := 0;
      }
    }

    /** `handle_output` on the kernel's successive answers; false asks for the connection to be closed. */
    method HandleOutput(answers: seq<Sent>) returns (ok: bool)
      requires Valid() && !dead
      modifies this`list, this`listSize, this`pos, this`armed, this`wire
      ensures Waiting() && (ok ==> Valid()) && accepted == old(accepted) && old(wire) <= wire
      ensures armed == (old(armed) && (list != [] || !ok))
      ensures |wire| == |old(wire)| + Drain(old(list), old(pos), answers).taken
      ensures ok == (Drain(old(list), old(pos), answers).ok && (list == [] ==> !closing))
      ensures list == [] ==> wire == accepted
    {
      hide Flatten, Drain;
      NothingWaiting();
      assert answers[0..] == answers;
      var i := 0;
      while list != []
        invariant 0 <= i <= |answers| && accepted == old(accepted) && old(wire) <= wire
        invariant Waiting() && armed == old(armed)
        invariant var d := Drain(list, pos, answers[i..]);
                  Drain(old(list), old(pos), answers) == Drained(|wire| - |old(wire)| + d.taken, d.ok)
        decreases |answers| - i
      {
        assert armed == (list != []);
        if i == |answers| {
          DrainNone(list, pos, answers, i);
          return true;
        }
        var r := answers[i];
        DrainStep(list, pos, answers, i);
        i := i + 1;
        match r {
          case Took(k) =>
            var n := if k > |list[0]| - pos then |list[0]| - pos else k;
            if n == 0 {
              return false;
            }
            Advance(n);
          case WouldBlock => return true;
          case SendFailed => return false;
        }
      }
      DrainNone(list, pos, answers, i);
      if closing {
        return false;
      }
      armed := false;
      return true;
    }

    /** `Valid`, except that EPOLLOUT may still be registered for an empty list. */
    ghost predicate Waiting()
      reads this
    {
      && listSize == |list|
      && (forall i | 0 <= i < |list| :: 0 < |list[i]| <= BUF_LEN)
      && (if list == [] then pos == 0 else pos < |list[0]| && armed)
      && accepted == wire + Flatten(list)[pos..]
    }
  }

  lemma SliceJoin(s: seq<Byte>, a: nat, b: nat, c: nat)
    requires a <= b <= c <= |s|
    ensures s[a..c] == s[a..b] + s[b..c]
  {}

  lemma Rejoin(before: seq<Byte>, s: seq<Byte>, n: nat)
    requires n <= |s|
    ensures before + s == before + s[..n] + s[n..] && (n == 0 ==> before + s[..n] == before)
  {
    assert s == s[..n] + s[n..];
  }

  lemma NothingWaiting()
    ensures Flatten<Byte>([]) == [] && Flatten<Byte>([])[0..] == []
  {}

  lemma FirstFits(list: seq<seq<Byte>>, pos: nat)
    requires list != [] && pos < |list[0]|
    ensures pos <= |Flatten(list)|
  {}

  lemma TopUp(list: seq<seq<Byte>>, more: seq<Byte>)
    requires list != []
    ensures Flatten(list[..|list| - 1] + [list[|list| - 1] + more]) == Flatten(list) + more
  {
    hide Flatten;
    var head, last := list[..|list| - 1], list[|list| - 1];
    assert list == head + [last];
    FlattenSnoc(head, last);
    FlattenSnoc(head, last + more);
    Associate(Flatten(head), last, more);
  }

  lemma HeadBytes(list: seq<seq<Byte>>, pos: nat, n: nat)
    requires list != [] && pos + n <= |list[0]|
    ensures Flatten(list)[pos..] == list[0][pos..pos + n] + Flatten(list)[pos + n..]
    ensures pos + n == |list[0]| ==> Flatten(list)[pos + n..] == Flatten(list[1..])
  {}
}
